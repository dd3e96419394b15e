/** Discovery of a project's requirements: the dependency detector on one contract, and the worklist that
    downloads contracts and puts one back behind the contracts it could not do without. */
module Requirements {
  import opened Common

  // ---------------------------------------------------------------- the dependency detector

  /** A call to another contract's function or trait, with the contract principals passed as arguments. */
  datatype Reference = Reference(callee: Id, item: string, arguments: seq<Option<Id>>)

  /** A function or trait: whether other contracts see it, and which parameters take a trait. */
  datatype Definition = Definition(exported: bool, traitParameters: seq<bool>)

  /** What a parsed contract holds for the detector. */
  datatype Contract = Contract(
    epoch: Epoch,
    direct: set<Id>,
    references: seq<Reference>,
    definitions: map<string, Definition>
  )

  /** The code of every contract there is, where it comes from, and what is loaded up front. */
  datatype Registry = Registry(
    book: map<Id, Contract>,
    retrievable: set<Id>,     // ids whose download succeeds
    seeded: set<Id>,          // ids whose parsed contract is loaded before the loop
    alwaysRetrieved: set<Id>  // ids downloaded even when already loaded: the sBTC ids on testnet
  )
  {
    ghost predicate Valid() {
      && retrievable <= book.Keys && seeded <= book.Keys
      && forall c, k :: c in book && 0 <= k < |book[c].references| ==>
           book[c].references[k].callee in book[c].direct + {c}
    }
  }

  /** Whether the detector knows the reference's target, when run on `contract` with `preloaded` contracts. */
  predicate Resolved(reg: Registry, contract: Id, preloaded: set<Id>, r: Reference) {
    && r.callee in reg.book && r.item in reg.book[r.callee].definitions
    && (r.callee == contract || (r.callee in preloaded && reg.book[r.callee].definitions[r.item].exported))
  }

  /** The contracts passed where the callee takes a trait. */
  function PassedContracts(arguments: seq<Option<Id>>, traitParameters: seq<bool>): set<Id> {
    set k | 0 <= k < |arguments| && k < |traitParameters| && traitParameters[k] && arguments[k].Some? ::
      arguments[k].value
  }

  function PassedBy(reg: Registry, r: Reference): set<Id>
    requires r.callee in reg.book && r.item in reg.book[r.callee].definitions
  {
    PassedContracts(r.arguments, reg.book[r.callee].definitions[r.item].traitParameters)
  }

  datatype Detection = Detection(dependencies: set<Id>, unresolved: seq<Id>)

  /** Names that contracts mention, as opposed to what the detector records for a given set of loaded ones. */
  function Mentioned(reg: Registry, contract: Id, preloaded: set<Id>, refs: seq<Reference>): set<Id>
  {
    if refs == [] then {}
    else (if Resolved(reg, contract, preloaded, refs[0]) then PassedBy(reg, refs[0]) else {})
         + Mentioned(reg, contract, preloaded, refs[1..])
  }

  function Unresolved(reg: Registry, contract: Id, preloaded: set<Id>, refs: seq<Reference>): (ids: seq<Id>)
  {
    if refs == [] then []
    else (if Resolved(reg, contract, preloaded, refs[0]) then [] else [refs[0].callee])
         + Unresolved(reg, contract, preloaded, refs[1..])
  }

  /** `detect_dependencies` on a single contract. A contract that is itself among the preloaded ones is
      taken as known, and none of its dependencies are recorded. */
  function Detect(reg: Registry, contract: Id, preloaded: set<Id>): Detection
    requires contract in reg.book
  {
    var code := reg.book[contract];
    Detection(
      if contract in preloaded then {}
      else code.direct + Mentioned(reg, contract, preloaded, code.references),
      Unresolved(reg, contract, preloaded, code.references))
  }

  /** The dependencies of a contract once everything it mentions is loaded. */
  function TrueDependencies(reg: Registry, contract: Id): set<Id>
    requires contract in reg.book
  {
    var code := reg.book[contract];
    code.direct + Mentioned(reg, contract, code.direct, code.references)
  }

  /** The reference's target is there: the contract's own, or one that a contract it names exports. */
  ghost predicate IsThere(reg: Registry, c: Id, r: Reference)
    requires c in reg.book
  {
    && r.callee in reg.book && r.item in reg.book[r.callee].definitions
    && (r.callee == c || (r.callee in reg.book[c].direct && reg.book[r.callee].definitions[r.item].exported))
  }

  /** The reference passes a contract for one of its target's parameters that take a trait. */
  ghost predicate Passes(reg: Registry, r: Reference, d: Id)
    requires r.callee in reg.book && r.item in reg.book[r.callee].definitions
  {
    var parameters := reg.book[r.callee].definitions[r.item].traitParameters;
    exists i :: 0 <= i < |r.arguments| && i < |parameters| && r.arguments[i] == Some(d) && parameters[i]
  }

  lemma {:induction false} MentionedMembers(reg: Registry, c: Id, refs: seq<Reference>, d: Id)
    requires c in reg.book
    ensures d in Mentioned(reg, c, reg.book[c].direct, refs) <==>
            exists k :: 0 <= k < |refs| && IsThere(reg, c, refs[k]) && Passes(reg, refs[k], d)
  {
    if refs != [] {
      MentionedMembers(reg, c, refs[1..], d);
      if k :| 0 <= k < |refs[1..]| && IsThere(reg, c, refs[1..][k]) && Passes(reg, refs[1..][k], d) {
        assert refs[k + 1] == refs[1..][k];
      }
      if k :| 0 <= k < |refs| && IsThere(reg, c, refs[k]) && Passes(reg, refs[k], d) {
        assert k > 0 ==> refs[1..][k - 1] == refs[k];
      }
    }
  }

  /** A contract depends on those it names, and on those it passes for a trait to something that is there. */
  lemma TrueDependenciesIff(reg: Registry, c: Id, d: Id)
    requires c in reg.book
    ensures d in TrueDependencies(reg, c) <==>
            || d in reg.book[c].direct
            || exists k :: 0 <= k < |reg.book[c].references| &&
                 IsThere(reg, c, reg.book[c].references[k]) && Passes(reg, reg.book[c].references[k], d)
  {
    MentionedMembers(reg, c, reg.book[c].references, d);
  }

  /** A contract dangles if and only if something it refers to in a contract there is, is not there for it. */
  lemma DanglingIff(reg: Registry, c: Id)
    requires c in reg.book
    ensures Dangling(reg, c) <==>
            exists k :: 0 <= k < |reg.book[c].references| &&
              reg.book[c].references[k].callee in reg.book && !IsThere(reg, c, reg.book[c].references[k])
  {
    if k :| 0 <= k < |reg.book[c].references| && reg.book[c].references[k].callee in reg.book
            && !IsThere(reg, c, reg.book[c].references[k])
    {
      assert !Resolved(reg, c, reg.book[c].direct, reg.book[c].references[k]);
    }
  }

  /** A reference to something its target does not offer, whatever is loaded. */
  ghost predicate Dangling(reg: Registry, contract: Id) {
    && contract in reg.book
    && exists k :: 0 <= k < |reg.book[contract].references| &&
         var r := reg.book[contract].references[k];
         r.callee in reg.book && !Resolved(reg, contract, reg.book[contract].direct, r)
  }

  // ---------------------------------------------------------------- required contracts

  ghost predicate IsPath(next: Id -> set<Id>, p: seq<Id>) {
    p != [] && forall i :: 0 < i < |p| ==> p[i] in next(p[i - 1])
  }

  /** `c` is listed, or follows a reached contract. */
  ghost predicate Reached(next: Id -> set<Id>, listed: set<Id>, c: Id) {
    exists p :: IsPath(next, p) && p[0] in listed && p[|p| - 1] == c
  }

  lemma ListedIsReached(next: Id -> set<Id>, listed: set<Id>, c: Id)
    requires c in listed
    ensures Reached(next, listed, c)
  {
    assert IsPath(next, [c]);
  }

  lemma NextIsReached(next: Id -> set<Id>, listed: set<Id>, c: Id, d: Id)
    requires Reached(next, listed, c) && d in next(c)
    ensures Reached(next, listed, d)
  {
    var p :| IsPath(next, p) && p[0] in listed && p[|p| - 1] == c;
    assert IsPath(next, p + [d]);
  }

  /** Whatever holds of the listed contracts and spreads from each reached one that has it to the next, holds of all
      that are reached. */
  lemma {:induction false} ReachedHave(next: Id -> set<Id>, listed: set<Id>, has: Id -> bool, p: seq<Id>)
    requires IsPath(next, p) && p[0] in listed
    requires forall c :: c in listed ==> has(c)
    requires forall c, d :: has(c) && Reached(next, listed, c) && d in next(c) ==> has(d)
    ensures has(p[|p| - 1])
  {
    if |p| > 1 {
      var init := p[..|p| - 1];
      ReachedHave(next, listed, has, init);
      assert IsPath(next, init) && p[|p| - 1] in next(init[|init| - 1]);
      assert Reached(next, listed, init[|init| - 1]);
    }
  }

  /** Where two relations agree on all that one of them reaches, they reach the same. */
  lemma ReachedAlike(f: Id -> set<Id>, g: Id -> set<Id>, listed: set<Id>, c: Id)
    requires forall x :: Reached(f, listed, x) ==> f(x) == g(x)
    ensures Reached(f, listed, c) <==> Reached(g, listed, c)
  {
    if Reached(f, listed, c) {
      var p :| IsPath(f, p) && p[0] in listed && p[|p| - 1] == c;
      AlongPath(f, g, listed, p);
    }
    if Reached(g, listed, c) {
      var p :| IsPath(g, p) && p[0] in listed && p[|p| - 1] == c;
      BackAlongPath(f, g, listed, p);
    }
  }

  lemma {:induction false} AlongPath(f: Id -> set<Id>, g: Id -> set<Id>, listed: set<Id>, p: seq<Id>)
    requires forall x :: Reached(f, listed, x) ==> f(x) == g(x)
    requires IsPath(f, p) && p[0] in listed
    ensures Reached(g, listed, p[|p| - 1])
  {
    if |p| > 1 {
      var init := p[..|p| - 1];
      AlongPath(f, g, listed, init);
      assert Reached(f, listed, init[|init| - 1]);
      NextIsReached(g, listed, init[|init| - 1], p[|p| - 1]);
    } else {
      ListedIsReached(g, listed, p[0]);
    }
  }

  lemma {:induction false} BackAlongPath(f: Id -> set<Id>, g: Id -> set<Id>, listed: set<Id>, p: seq<Id>)
    requires forall x :: Reached(f, listed, x) ==> f(x) == g(x)
    requires IsPath(g, p) && p[0] in listed
    ensures Reached(f, listed, p[|p| - 1])
  {
    if |p| > 1 {
      var init := p[..|p| - 1];
      BackAlongPath(f, g, listed, init);
      NextIsReached(f, listed, init[|init| - 1], p[|p| - 1]);
    } else {
      ListedIsReached(f, listed, p[0]);
    }
  }

  /** A contract's true dependencies. */
  function Needed(reg: Registry): Id -> set<Id> {
    (c: Id) => if c in reg.book then TrueDependencies(reg, c) else {}
  }

  /** `c` is listed, or a dependency of a required contract. */
  ghost predicate Required(reg: Registry, listed: set<Id>, c: Id) {
    Reached(Needed(reg), listed, c)
  }

  /** What the detector misses of a contract when only the contracts loaded up front are there. */
  function Missed(reg: Registry, c: Id): set<Id>
    requires c in reg.book
  {
    Elements(Unresolved(reg, c, reg.seeded, reg.book[c].references))
  }

  /** The contracts that looking at `c` leads to. A contract that is downloaded although it was loaded up front leads
      only to what is missing for it. One that is downloaded again when it comes back leads at least to those it names
      (`sure`), and at most to its true dependencies; any other one leads to its true dependencies. */
  function Followed(reg: Registry, sure: bool): Id -> set<Id> {
    (c: Id) =>
      if c !in reg.book then {}
      else if c in reg.alwaysRetrieved && c in reg.seeded then Missed(reg, c)
      else if c in reg.alwaysRetrieved && sure then reg.book[c].direct
      else TrueDependencies(reg, c)
  }

  /** No contract that is downloaded again passes on a contract that it does not name itself. */
  ghost predicate Determined(reg: Registry, listed: set<Id>) {
    forall c ::
      Reached(Followed(reg, false), listed, c) && c in reg.book && c in reg.alwaysRetrieved && c !in reg.seeded ==>
        TrueDependencies(reg, c) == reg.book[c].direct
  }

  /** Then what is followed at least is what is followed at most. */
  lemma FollowedAlike(reg: Registry, listed: set<Id>, c: Id)
    requires Determined(reg, listed)
    ensures Reached(Followed(reg, true), listed, c) <==> Reached(Followed(reg, false), listed, c)
  {
    ReachedAlike(Followed(reg, false), Followed(reg, true), listed, c);
  }

  /** No required contract is always downloaded: on testnet, no sBTC contract is required. */
  ghost predicate Ordinary(reg: Registry, listed: set<Id>) {
    forall c :: Required(reg, listed, c) ==> c !in reg.alwaysRetrieved
  }

  /** Then the required contracts are followed, and no others. */
  lemma RequiredIsFollowed(reg: Registry, listed: set<Id>, c: Id)
    requires Ordinary(reg, listed)
    ensures Reached(Followed(reg, false), listed, c) <==> Required(reg, listed, c)
  {
    ReachedAlike(Needed(reg), Followed(reg, false), listed, c);
  }

  lemma OrdinaryIsDetermined(reg: Registry, listed: set<Id>)
    requires Ordinary(reg, listed)
    ensures Determined(reg, listed)
  {
    forall c | Reached(Followed(reg, false), listed, c) ensures c !in reg.alwaysRetrieved {
      RequiredIsFollowed(reg, listed, c);
    }
  }

  predicate Available(reg: Registry, c: Id) {
    (c in reg.seeded && c !in reg.alwaysRetrieved) || c in reg.retrievable
  }

  // ---------------------------------------------------------------- facts about the detector

  lemma {:induction false} MentionedIsMonotone(reg: Registry, c: Id, few: set<Id>, many: set<Id>, refs: seq<Reference>)
    requires forall k :: 0 <= k < |refs| ==> refs[k].callee in many + {c} || refs[k].callee !in few
    ensures Mentioned(reg, c, few, refs) <= Mentioned(reg, c, many, refs)
  {
    if refs != [] {
      MentionedIsMonotone(reg, c, few, many, refs[1..]);
    }
  }

  lemma {:induction false} UnresolvedMembers(reg: Registry, c: Id, preloaded: set<Id>, refs: seq<Reference>)
    ensures forall u :: u in Unresolved(reg, c, preloaded, refs) <==>
              exists k :: 0 <= k < |refs| && refs[k].callee == u && !Resolved(reg, c, preloaded, refs[k])
  {
    if refs != [] {
      UnresolvedMembers(reg, c, preloaded, refs[1..]);
      forall u ensures u in Unresolved(reg, c, preloaded, refs) <==>
          exists k :: 0 <= k < |refs| && refs[k].callee == u && !Resolved(reg, c, preloaded, refs[k])
      {
        if u in Unresolved(reg, c, preloaded, refs[1..]) {
          var k :| 0 <= k < |refs[1..]| && refs[1..][k].callee == u && !Resolved(reg, c, preloaded, refs[1..][k]);
          assert refs[k + 1].callee == u;
        }
        if k :| 0 <= k < |refs| && refs[k].callee == u && !Resolved(reg, c, preloaded, refs[k]) {
          if k > 0 { assert refs[1..][k - 1] == refs[k]; }
        }
      }
    }
  }

  lemma {:induction false} MentionedWhenResolved(reg: Registry, c: Id, p: set<Id>, q: set<Id>, refs: seq<Reference>)
    requires forall k :: 0 <= k < |refs| ==> Resolved(reg, c, p, refs[k]) && Resolved(reg, c, q, refs[k])
    ensures Mentioned(reg, c, p, refs) == Mentioned(reg, c, q, refs)
  {
    if refs != [] {
      assert Resolved(reg, c, p, refs[0]) && Resolved(reg, c, q, refs[0]);
      forall k | 0 <= k < |refs[1..]| ensures Resolved(reg, c, p, refs[1..][k]) && Resolved(reg, c, q, refs[1..][k]) {
        assert refs[1..][k] == refs[k + 1];
      }
      MentionedWhenResolved(reg, c, p, q, refs[1..]);
    }
  }

  /** A contract the detector accepts has no dangling reference, and unless it was preloaded itself its
      dependencies are its true ones; a contract it refuses has recorded only true ones. */
  lemma DetectIsTrue(reg: Registry, c: Id, preloaded: set<Id>)
    requires reg.Valid() && c in reg.book
    ensures Detect(reg, c, preloaded).unresolved == [] ==>
              && !Dangling(reg, c)
              && (c !in preloaded ==> Detect(reg, c, preloaded).dependencies == TrueDependencies(reg, c))
    ensures Detect(reg, c, preloaded).dependencies <= TrueDependencies(reg, c)
    ensures c in preloaded ==> Detect(reg, c, preloaded).dependencies == {}
  {
    var refs := reg.book[c].references;
    UnresolvedMembers(reg, c, preloaded, refs);
    if Detect(reg, c, preloaded).unresolved == [] {
      forall k | 0 <= k < |refs| ensures Resolved(reg, c, preloaded, refs[k]) &&
          Resolved(reg, c, reg.book[c].direct, refs[k]) {
        assert refs[k].callee !in Unresolved(reg, c, preloaded, refs);
      }
      MentionedWhenResolved(reg, c, preloaded, reg.book[c].direct, refs);
    }
    MentionedIsMonotone(reg, c, preloaded, reg.book[c].direct, refs);
  }

  /** What a contract without dangling references could not do without was not loaded, and is not itself. */
  lemma UnresolvedIsNew(reg: Registry, c: Id, preloaded: set<Id>, u: Id)
    requires reg.Valid() && c in reg.book && !Dangling(reg, c)
    requires preloaded <= reg.book.Keys
    requires u in Detect(reg, c, preloaded).unresolved
    ensures u !in preloaded && u != c && u in TrueDependencies(reg, c)
  {
    UnresolvedMembers(reg, c, preloaded, reg.book[c].references);
    var k :| 0 <= k < |reg.book[c].references| && reg.book[c].references[k].callee == u
             && !Resolved(reg, c, preloaded, reg.book[c].references[k]);
    assert u in reg.book ==> Resolved(reg, c, reg.book[c].direct, reg.book[c].references[k]);
  }

  /** Every contract the detector misses is the contract itself or one of its true dependencies. */
  lemma UnresolvedIsMentioned(reg: Registry, c: Id, preloaded: set<Id>, u: Id)
    requires reg.Valid() && c in reg.book && u in Detect(reg, c, preloaded).unresolved
    ensures u == c || u in TrueDependencies(reg, c)
  {
    UnresolvedMembers(reg, c, preloaded, reg.book[c].references);
    var k :| 0 <= k < |reg.book[c].references| && reg.book[c].references[k].callee == u;
  }

  /** With more contracts loaded, the detector misses no others. */
  lemma MissedIsMonotone(reg: Registry, c: Id, few: set<Id>, many: set<Id>, u: Id)
    requires c in reg.book && few <= many && u in Unresolved(reg, c, many, reg.book[c].references)
    ensures u in Unresolved(reg, c, few, reg.book[c].references)
  {
    var refs := reg.book[c].references;
    UnresolvedMembers(reg, c, many, refs);
    UnresolvedMembers(reg, c, few, refs);
    var k :| 0 <= k < |refs| && refs[k].callee == u && !Resolved(reg, c, many, refs[k]);
    assert !Resolved(reg, c, few, refs[k]);
  }

  /** What was missing at first and is missing no longer has been loaded since. */
  lemma MissedIsLoaded(reg: Registry, c: Id, preloaded: set<Id>, u: Id)
    requires c in reg.book && Unresolved(reg, c, preloaded, reg.book[c].references) == [] && u in Missed(reg, c)
    ensures u in preloaded && u !in reg.seeded
  {
    var refs := reg.book[c].references;
    UnresolvedMembers(reg, c, preloaded, refs);
    UnresolvedMembers(reg, c, reg.seeded, refs);
    var k :| 0 <= k < |refs| && refs[k].callee == u && !Resolved(reg, c, reg.seeded, refs[k]);
    assert refs[k].callee !in Unresolved(reg, c, preloaded, refs);
    assert Resolved(reg, c, preloaded, refs[k]);
  }

  // ---------------------------------------------------------------- the worklist

  /** The loop's variables: the deque, the keys of `requirements_data`, `requirements_deps`, and the
      contracts downloaded so far, which are those given an epoch and a publish specification. */
  datatype Work = Work(queue: seq<Id>, data: set<Id>, deps: map<Id, set<Id>>, retrieved: set<Id>)

  function Reversed(s: seq<Id>): (r: seq<Id>)
    ensures |r| == |s| && forall x :: x in r <==> x in s
    ensures s != [] ==> r[0] == s[|s| - 1]
  {
    if s == [] then [] else Reversed(s[1..]) + [s[0]]
  }

  function Start(reg: Registry, listed: seq<Id>): Work {
    Work(Reversed(listed), reg.seeded, map[], {})
  }

  predicate Cached(reg: Registry, s: Work, c: Id) {
    c in s.data && c !in reg.alwaysRetrieved
  }

  /** The loop can take the head of the queue: it is done with, loaded, or can be downloaded. */
  predicate CanStep(reg: Registry, s: Work) {
    && s.queue != []
    && s.data <= reg.book.Keys && reg.retrievable <= reg.book.Keys
    && (s.queue[0] in s.deps || Cached(reg, s, s.queue[0]) || s.queue[0] in reg.retrievable)
  }

  /** What the detector says about the head, taken out of the loaded contracts if that is where it came from. */
  function DetectHead(reg: Registry, s: Work): Detection
    requires CanStep(reg, s) && s.queue[0] !in s.deps
  {
    var c := s.queue[0];
    Detect(reg, c, if Cached(reg, s, c) then s.data - {c} else s.data)
  }

  /** One turn of the loop; `pushed` lists the dependencies found, in the order they are enqueued. */
  function Step(reg: Registry, s: Work, pushed: seq<Id>): Work
    requires CanStep(reg, s)
  {
    var c, rest := s.queue[0], s.queue[1..];
    if c in s.deps then s.(queue := rest)
    else
      var found := DetectHead(reg, s);
      var retrieved := if Cached(reg, s, c) then s.retrieved else s.retrieved + {c};
      if found.unresolved == [] then
        Work(rest + pushed, s.data + {c}, s.deps[c := found.dependencies], retrieved)
      else
        Work(Reversed(found.unresolved) + ([c] + (rest + pushed)), s.data + {c}, s.deps, retrieved)
  }

  ghost predicate Next(reg: Registry, s: Work, t: Work) {
    && CanStep(reg, s)
    && exists pushed ::
         && Elements(pushed) == (if s.queue[0] in s.deps then {} else DetectHead(reg, s).dependencies)
         && t == Step(reg, s, pushed)
  }

  /** Loaded contracts are the seeded and the downloaded ones; only downloadable ones were downloaded. */
  ghost predicate KeysAgree(reg: Registry, s: Work) {
    && s.deps.Keys <= s.data == reg.seeded + s.retrieved <= reg.book.Keys
    && s.retrieved <= reg.retrievable
  }

  /** Nothing but followed contracts is ever looked at. */
  ghost predicate OnlyFollowed(reg: Registry, listed: set<Id>, s: Work) {
    forall c :: Kept(s, c) ==> Reached(Followed(reg, false), listed, c)
  }

  /** Done with, or still in the queue. */
  predicate Kept(s: Work, c: Id) {
    c in s.queue || c in s.deps
  }

  ghost predicate AllKept(s: Work, ids: set<Id>) {
    forall c :: c in ids ==> Kept(s, c)
  }

  /** Listed contracts, downloaded contracts and recorded dependencies are kept, and so is what a recorded contract
      leads to at least, and what a contract names that will be downloaded again. */
  ghost predicate NothingForgotten(reg: Registry, listed: set<Id>, s: Work) {
    && AllKept(s, listed) && AllKept(s, s.data - reg.seeded)
    && (forall c :: c in s.deps ==> AllKept(s, s.deps[c]) && AllKept(s, Followed(reg, true)(c)))
    && (forall c :: c in s.data && c in reg.book && c in reg.alwaysRetrieved && c !in reg.seeded ==>
          AllKept(s, reg.book[c].direct))
  }

  /** What has been recorded is the truth, but for contracts that are always downloaded. Of these, one that was loaded
      up front has no dependencies recorded. */
  ghost predicate RecordedTruly(reg: Registry, s: Work) {
    forall c :: c in s.deps && c in reg.book ==>
        TrulyRecorded(reg, c, s.deps[c]) && (c in reg.alwaysRetrieved ==> c in s.retrieved)
  }

  ghost predicate TrulyRecorded(reg: Registry, c: Id, deps: set<Id>)
    requires c in reg.book
  {
    && !Dangling(reg, c)
    && (c in reg.alwaysRetrieved && c in reg.seeded ==> deps == {})
    && (deps == TrueDependencies(reg, c) || (c in reg.alwaysRetrieved && deps == {}))
  }

  ghost predicate Invariant(reg: Registry, listed: set<Id>, s: Work) {
    KeysAgree(reg, s) && OnlyFollowed(reg, listed, s) && NothingForgotten(reg, listed, s) && RecordedTruly(reg, s)
  }

  lemma StepMembers(reg: Registry, s: Work, pushed: seq<Id>)
    requires CanStep(reg, s) && s.queue[0] !in s.deps
    ensures var t := Step(reg, s, pushed); var found := DetectHead(reg, s);
            forall x :: x in t.queue <==>
              || x in s.queue[1..] || x in pushed
              || (found.unresolved != [] && (x == s.queue[0] || x in found.unresolved))
  {
    var found := DetectHead(reg, s);
    assert forall x :: x in Reversed(found.unresolved) <==> x in Elements(Reversed(found.unresolved));
    assert forall x :: x in found.unresolved <==> x in Elements(found.unresolved);
  }

  lemma StepKeepsOnlyFollowed(reg: Registry, listed: set<Id>, s: Work, pushed: seq<Id>)
    requires reg.Valid() && CanStep(reg, s) && s.queue[0] !in s.deps && KeysAgree(reg, s) &&
               OnlyFollowed(reg, listed, s)
    requires Elements(pushed) == DetectHead(reg, s).dependencies
    ensures OnlyFollowed(reg, listed, Step(reg, s, pushed))
  {
    var c, t := s.queue[0], Step(reg, s, pushed);
    StepMembers(reg, s, pushed);
    assert Kept(s, c);
    forall x | Kept(t, x) ensures Reached(Followed(reg, false), listed, x) {
      if x in pushed {
        assert x in Elements(pushed);
        PushedIsFollowed(reg, s, x);
        NextIsReached(Followed(reg, false), listed, c, x);
      } else if x != c && x in DetectHead(reg, s).unresolved {
        UnresolvedIsFollowed(reg, s, x);
        NextIsReached(Followed(reg, false), listed, c, x);
      } else {
        assert Kept(s, x);
      }
    }
  }

  lemma PushedIsFollowed(reg: Registry, s: Work, x: Id)
    requires reg.Valid() && CanStep(reg, s) && s.queue[0] !in s.deps && KeysAgree(reg, s)
    requires x in DetectHead(reg, s).dependencies
    ensures x in Followed(reg, false)(s.queue[0])
  {
    var c := s.queue[0];
    DetectIsTrue(reg, c, if Cached(reg, s, c) then s.data - {c} else s.data);
  }

  lemma UnresolvedIsFollowed(reg: Registry, s: Work, x: Id)
    requires reg.Valid() && CanStep(reg, s) && s.queue[0] !in s.deps && KeysAgree(reg, s)
    requires x in DetectHead(reg, s).unresolved && x != s.queue[0]
    ensures x in Followed(reg, false)(s.queue[0])
  {
    var c := s.queue[0];
    if c in reg.alwaysRetrieved && c in reg.seeded {
      MissedIsMonotone(reg, c, reg.seeded, s.data, x);
    } else {
      UnresolvedIsMentioned(reg, c, if Cached(reg, s, c) then s.data - {c} else s.data, x);
    }
  }

  /** A turn loses nothing, and keeps what it finds. */
  lemma StepKeeps(reg: Registry, s: Work, pushed: seq<Id>, x: Id)
    requires CanStep(reg, s) && s.queue[0] !in s.deps
    requires Elements(pushed) == DetectHead(reg, s).dependencies
    requires Kept(s, x) || x in DetectHead(reg, s).dependencies
    ensures Kept(Step(reg, s, pushed), x)
  {
    StepMembers(reg, s, pushed);
    assert x in DetectHead(reg, s).dependencies ==> x in Elements(pushed);
    assert x in s.queue ==> x == s.queue[0] || x in s.queue[1..];
  }

  lemma StepKeepsNothingForgotten(reg: Registry, listed: set<Id>, s: Work, pushed: seq<Id>)
    requires reg.Valid() && CanStep(reg, s) && s.queue[0] !in s.deps && KeysAgree(reg, s) &&
               NothingForgotten(reg, listed, s)
    requires Elements(pushed) == DetectHead(reg, s).dependencies
    ensures NothingForgotten(reg, listed, Step(reg, s, pushed))
  {
    var c, t := s.queue[0], Step(reg, s, pushed);
    forall x | Kept(s, x) || x in DetectHead(reg, s).dependencies ensures Kept(t, x) {
      StepKeeps(reg, s, pushed, x);
    }
    assert Kept(s, c);
    if c !in s.data {
      assert reg.book[c].direct <= DetectHead(reg, s).dependencies;
    }
    if DetectHead(reg, s).unresolved == [] {
      RecordedIsKept(reg, s);
    }
  }

  /** What a contract leads to at least is found or kept when it is recorded. */
  lemma RecordedIsKept(reg: Registry, s: Work)
    requires reg.Valid() && CanStep(reg, s) && s.queue[0] !in s.deps && KeysAgree(reg, s)
    requires DetectHead(reg, s).unresolved == [] && AllKept(s, s.data - reg.seeded)
    requires forall c :: c in s.data && c in reg.book && c in reg.alwaysRetrieved && c !in reg.seeded ==>
               AllKept(s, reg.book[c].direct)
    ensures forall x :: x in Followed(reg, true)(s.queue[0]) ==> Kept(s, x) || x in DetectHead(reg, s).dependencies
  {
    var c := s.queue[0];
    DetectIsTrue(reg, c, if Cached(reg, s, c) then s.data - {c} else s.data);
    forall x | x in Followed(reg, true)(c) ensures Kept(s, x) || x in DetectHead(reg, s).dependencies {
      if c in reg.alwaysRetrieved && c in reg.seeded {
        MissedIsLoaded(reg, c, s.data, x);
      }
    }
  }

  lemma StepKeepsRecordedTruly(reg: Registry, s: Work, pushed: seq<Id>)
    requires reg.Valid() && CanStep(reg, s) && s.queue[0] !in s.deps && KeysAgree(reg, s) && RecordedTruly(reg, s)
    ensures KeysAgree(reg, Step(reg, s, pushed)) && RecordedTruly(reg, Step(reg, s, pushed))
  {
    if DetectHead(reg, s).unresolved == [] {
      HeadIsTrulyRecorded(reg, s);
    }
  }

  lemma HeadIsTrulyRecorded(reg: Registry, s: Work)
    requires reg.Valid() && CanStep(reg, s) && s.queue[0] !in s.deps && KeysAgree(reg, s)
    requires DetectHead(reg, s).unresolved == []
    ensures TrulyRecorded(reg, s.queue[0], DetectHead(reg, s).dependencies)
  {
    var c := s.queue[0];
    DetectIsTrue(reg, c, if Cached(reg, s, c) then s.data - {c} else s.data);
  }

  lemma DroppingKeepsInvariant(reg: Registry, listed: set<Id>, s: Work, t: Work)
    requires Invariant(reg, listed, s)
    requires s.queue != [] && s.queue[0] in s.deps && t == s.(queue := s.queue[1..])
    ensures Invariant(reg, listed, t)
  {
    forall x ensures Kept(t, x) <==> Kept(s, x) {
      assert x in s.queue <==> x == s.queue[0] || x in s.queue[1..];
    }
  }

  lemma StepKeepsInvariant(reg: Registry, listed: set<Id>, s: Work, t: Work)
    requires reg.Valid() && Invariant(reg, listed, s) && Next(reg, s, t)
    ensures Invariant(reg, listed, t)
  {
    if s.queue[0] in s.deps {
      DroppingKeepsInvariant(reg, listed, s, t);
    } else {
      var pushed := PushedBy(reg, s, t);
      StepKeepsOnlyFollowed(reg, listed, s, pushed);
      StepKeepsNothingForgotten(reg, listed, s, pushed);
      StepKeepsRecordedTruly(reg, s, pushed);
    }
  }

  lemma PushedBy(reg: Registry, s: Work, t: Work) returns (pushed: seq<Id>)
    requires Next(reg, s, t) && s.queue[0] !in s.deps
    ensures Elements(pushed) == DetectHead(reg, s).dependencies && t == Step(reg, s, pushed)
  {
    pushed :| Elements(pushed) == DetectHead(reg, s).dependencies && t == Step(reg, s, pushed);
  }

  /** The queue's head is already loaded. */
  predicate HeadLoaded(s: Work) {
    s.queue != [] && s.queue[0] in s.data
  }

  ghost predicate Smaller(reg: Registry, t: Work, s: Work) {
    (reg.book.Keys - s.data, reg.book.Keys - s.deps.Keys, HeadLoaded(s), |s.queue| decreases to
     reg.book.Keys - t.data, reg.book.Keys - t.deps.Keys, HeadLoaded(t), |t.queue|)
  }

  /** Each turn on a contract without dangling references makes progress: a new contract is loaded, one is
      done with, the head becomes one that is not loaded, or the queue gets shorter. */
  lemma StepProgresses(reg: Registry, s: Work, t: Work)
    requires reg.Valid() && KeysAgree(reg, s) && Next(reg, s, t)
    requires !Dangling(reg, s.queue[0])
    ensures Smaller(reg, t, s)
  {
    var c := s.queue[0];
    if c !in s.deps {
      var pushed :| Elements(pushed) == DetectHead(reg, s).dependencies && t == Step(reg, s, pushed);
      var found := DetectHead(reg, s);
      if c !in s.data {
        assert c in reg.book.Keys - s.data && c !in reg.book.Keys - t.data;
      } else if found.unresolved == [] {
        assert t.data == s.data;
        assert c in reg.book.Keys - s.deps.Keys && c !in reg.book.Keys - t.deps.Keys;
      } else {
        assert t.data == s.data && t.deps == s.deps;
        var u := found.unresolved[|found.unresolved| - 1];
        assert t.queue[0] == u;
        UnresolvedIsNew(reg, c, if Cached(reg, s, c) then s.data - {c} else s.data, u);
      }
    }
  }

  ghost predicate IsRun(reg: Registry, run: seq<Work>) {
    run != [] && (|run| > 1 ==> Next(reg, run[0], run[1]) && IsRun(reg, run[1..]))
  }

  /** A run of the whole loop, from the listed requirements to an empty queue. */
  ghost predicate FinishedRun(reg: Registry, listed: seq<Id>, run: seq<Work>) {
    IsRun(reg, run) && run[0] == Start(reg, listed) && run[|run| - 1].queue == []
  }

  lemma StartInvariant(reg: Registry, listed: seq<Id>)
    requires reg.Valid()
    ensures Invariant(reg, Elements(listed), Start(reg, listed))
  {
    var s := Start(reg, listed);
    forall c | Kept(s, c) ensures Reached(Followed(reg, false), Elements(listed), c) {
      ListedIsReached(Followed(reg, false), Elements(listed), c);
    }
  }

  lemma {:induction false} RunKeepsInvariant(reg: Registry, listed: set<Id>, run: seq<Work>)
    requires reg.Valid() && IsRun(reg, run) && Invariant(reg, listed, run[0])
    ensures Invariant(reg, listed, run[|run| - 1])
  {
    if |run| > 1 {
      StepKeepsInvariant(reg, listed, run[0], run[1]);
      RunKeepsInvariant(reg, listed, run[1..]);
    }
  }

  /** With an empty queue, what is recorded lies between what is followed at least and what is followed at most. */
  lemma RecordedIsFollowed(reg: Registry, listed: set<Id>, s: Work, c: Id)
    requires Invariant(reg, listed, s) && s.queue == []
    ensures Reached(Followed(reg, true), listed, c) ==> c in s.deps
    ensures c in s.deps ==> Reached(Followed(reg, false), listed, c)
    ensures Determined(reg, listed) ==> (c in s.deps <==> Reached(Followed(reg, false), listed, c))
  {
    if Reached(Followed(reg, true), listed, c) {
      SureIsRecorded(reg, listed, s, c);
    }
    if c in s.deps {
      assert Kept(s, c);
    }
    if Determined(reg, listed) {
      FollowedAlike(reg, listed, c);
    }
  }

  lemma RecordedIsSound(reg: Registry, s: Work, c: Id)
    requires KeysAgree(reg, s) && RecordedTruly(reg, s) && c in s.deps
    ensures c in reg.book && Available(reg, c) && !Dangling(reg, c)
  {
  }

  lemma SureIsRecorded(reg: Registry, listed: set<Id>, s: Work, c: Id)
    requires NothingForgotten(reg, listed, s) && s.queue == [] && Reached(Followed(reg, true), listed, c)
    ensures c in s.deps
  {
    var p :| IsPath(Followed(reg, true), p) && p[0] in listed && p[|p| - 1] == c;
    ReachedHave(Followed(reg, true), listed, (x: Id) => x in s.deps, p);
  }

  /** Unless a required contract is always downloaded, an empty queue means that exactly the required contracts are
      recorded, with their true dependencies. */
  lemma RecordedIsRequired(reg: Registry, listed: set<Id>, s: Work, c: Id)
    requires Invariant(reg, listed, s) && s.queue == [] && Ordinary(reg, listed)
    ensures c in s.deps <==> Required(reg, listed, c)
    ensures c in s.deps ==> c in reg.book && s.deps[c] == TrueDependencies(reg, c)
  {
    RequiredIsFollowed(reg, listed, c);
    OrdinaryIsDetermined(reg, listed);
    RecordedIsFollowed(reg, listed, s, c);
  }

  /** Whatever is followed is required. */
  lemma FollowedIsRequired(reg: Registry, listed: set<Id>, c: Id)
    requires reg.Valid() && Reached(Followed(reg, false), listed, c)
    ensures Required(reg, listed, c)
  {
    var p :| IsPath(Followed(reg, false), p) && p[0] in listed && p[|p| - 1] == c;
    forall x | x in listed ensures Required(reg, listed, x) {
      ListedIsReached(Needed(reg), listed, x);
    }
    forall x, d | Required(reg, listed, x) && d in Followed(reg, false)(x) ensures Required(reg, listed, d) {
      if x in reg.alwaysRetrieved && x in reg.seeded {
        UnresolvedIsMentioned(reg, x, reg.seeded, d);
      }
      if d != x {
        NextIsReached(Needed(reg), listed, x, d);
      }
    }
    ReachedHave(Followed(reg, false), listed, (x: Id) => Required(reg, listed, x), p);
  }

  ghost predicate RecordedIsClosed(reg: Registry, s: Work) {
    forall c, d :: c in s.deps && c in reg.alwaysRetrieved && c in reg.seeded && d in Needed(reg)(c) ==> d in s.deps
  }

  /** All required contracts are recorded exactly if those that are always downloaded and were loaded up front have
      no true dependency that is not recorded. */
  lemma RequiredIsRecordedIfClosed(reg: Registry, listed: set<Id>, s: Work)
    requires reg.Valid() && Invariant(reg, listed, s) && s.queue == [] && Determined(reg, listed)
    ensures (forall c :: c in s.deps <==> Required(reg, listed, c)) <==>
            RecordedIsClosed(reg, s)
  {
    forall c | c in s.deps ensures Required(reg, listed, c) {
      RecordedIsFollowed(reg, listed, s, c);
      FollowedIsRequired(reg, listed, c);
    }
    if forall c :: c in s.deps <==> Required(reg, listed, c) {
      forall c, d | c in s.deps && d in Needed(reg)(c) ensures d in s.deps {
        NextIsReached(Needed(reg), listed, c, d);
      }
    }
    if RecordedIsClosed(reg, s) {
      forall c | Required(reg, listed, c) ensures c in s.deps {
        RequiredIsRecorded(reg, listed, s, c);
      }
    }
  }

  lemma RequiredIsRecorded(reg: Registry, listed: set<Id>, s: Work, c: Id)
    requires Invariant(reg, listed, s) && s.queue == [] && Determined(reg, listed) && Required(reg, listed, c)
    requires RecordedIsClosed(reg, s)
    ensures c in s.deps
  {
    var p :| IsPath(Needed(reg), p) && p[0] in listed && p[|p| - 1] == c;
    forall x, d | x in s.deps && d in Needed(reg)(x) ensures d in s.deps {
      if !(x in reg.alwaysRetrieved && x in reg.seeded) {
        assert Kept(s, x);
        assert d in Followed(reg, true)(x);
        assert Kept(s, d);
      }
    }
    ReachedHave(Needed(reg), listed, (x: Id) => x in s.deps, p);
  }

  /** No followed contract that is always downloaded and was loaded up front hides a true dependency that is not
      followed for another reason. */
  ghost predicate HidesNothing(reg: Registry, listed: set<Id>) {
    forall c, d ::
      Reached(Followed(reg, false), listed, c) && c in reg.alwaysRetrieved && c in reg.seeded && d in Needed(reg)(c) ==>
        Reached(Followed(reg, false), listed, d)
  }

  /** When contracts that are always downloaded are required, all required contracts are recorded exactly if those that
      were loaded up front hide nothing. */
  lemma RequiredIsRecordedIff(reg: Registry, listed: set<Id>, s: Work)
    requires reg.Valid() && Invariant(reg, listed, s) && s.queue == [] && Determined(reg, listed)
    ensures (forall c :: c in s.deps <==> Required(reg, listed, c)) <==> HidesNothing(reg, listed)
  {
    RequiredIsRecordedIfClosed(reg, listed, s);
    if RecordedIsClosed(reg, s) {
      ClosedHidesNothing(reg, listed, s);
    }
    if HidesNothing(reg, listed) {
      NothingHiddenIsClosed(reg, listed, s);
    }
  }

  lemma ClosedHidesNothing(reg: Registry, listed: set<Id>, s: Work)
    requires Invariant(reg, listed, s) && s.queue == [] && Determined(reg, listed) && RecordedIsClosed(reg, s)
    ensures HidesNothing(reg, listed)
  {
    forall c, d | Reached(Followed(reg, false), listed, c) && c in reg.alwaysRetrieved && c in reg.seeded &&
        d in Needed(reg)(c)
      ensures Reached(Followed(reg, false), listed, d)
    {
      RecordedIsFollowed(reg, listed, s, c);
      RecordedIsFollowed(reg, listed, s, d);
    }
  }

  lemma NothingHiddenIsClosed(reg: Registry, listed: set<Id>, s: Work)
    requires Invariant(reg, listed, s) && s.queue == [] && Determined(reg, listed) && HidesNothing(reg, listed)
    ensures RecordedIsClosed(reg, s)
  {
    forall c, d | c in s.deps && c in reg.alwaysRetrieved && c in reg.seeded &&
        d in Needed(reg)(c) ensures d in s.deps {
      RecordedIsFollowed(reg, listed, s, c);
      RecordedIsFollowed(reg, listed, s, d);
    }
  }

  /** All that is followed can be had, and refers only to what is there. */
  ghost predicate Sound(reg: Registry, listed: set<Id>, sure: bool) {
    forall c :: Reached(Followed(reg, sure), listed, c) ==> Available(reg, c) && !Dangling(reg, c)
  }

  /** From any state the invariant allows, the loop can run to an empty queue if every contract that may be followed
      can be had and has no dangling reference. */
  lemma {:induction false} RunToEmpty(reg: Registry, listed: set<Id>, s: Work) returns (run: seq<Work>)
    requires reg.Valid() && Invariant(reg, listed, s)
    requires Sound(reg, listed, false)
    ensures IsRun(reg, run) && run[0] == s && run[|run| - 1].queue == []
    decreases reg.book.Keys - s.data, reg.book.Keys - s.deps.Keys, HeadLoaded(s), |s.queue|
  {
    if s.queue == [] {
      return [s];
    }
    var c := s.queue[0];
    assert Kept(s, c);
    var pushed := if c in s.deps then [] else Listing(DetectHead(reg, s).dependencies);
    assert Elements(pushed) == if c in s.deps then {} else DetectHead(reg, s).dependencies;
    var t := Step(reg, s, pushed);
    assert Next(reg, s, t);
    StepKeepsInvariant(reg, listed, s, t);
    StepProgresses(reg, s, t);
    var rest := RunToEmpty(reg, listed, t);
    run := [s] + rest;
    assert run[1..] == rest;
  }

  ghost function Listing(ids: set<Id>): (s: seq<Id>)
    ensures Elements(s) == ids
  {
    if ids == {} then []
    else
      var id :| id in ids;
      var rest := Listing(ids - {id});
      assert Elements([id] + rest) == {id} + Elements(rest);
      [id] + rest
  }

  lemma SureIsSound(reg: Registry, listed: set<Id>, s: Work)
    requires Invariant(reg, listed, s) && s.queue == []
    ensures Sound(reg, listed, true)
  {
    forall c | Reached(Followed(reg, true), listed, c) ensures Available(reg, c) && !Dangling(reg, c) {
      SureIsRecorded(reg, listed, s, c);
      RecordedIsSound(reg, s, c);
    }
  }

  lemma SoundAlike(reg: Registry, listed: set<Id>)
    requires Determined(reg, listed)
    ensures Sound(reg, listed, true) <==> Sound(reg, listed, false)
  {
    forall c ensures Reached(Followed(reg, true), listed, c) <==> Reached(Followed(reg, false), listed, c) {
      FollowedAlike(reg, listed, c);
    }
  }

  /** The loop can come to its regular end only if what is followed at least can be had and refers only to what is
      there, and does so if that holds of what is followed at most. */
  lemma FinishesBetween(reg: Registry, listed: seq<Id>)
    requires reg.Valid()
    ensures (exists run :: FinishedRun(reg, listed, run)) ==> Sound(reg, Elements(listed), true)
    ensures Sound(reg, Elements(listed), false) ==> exists run :: FinishedRun(reg, listed, run)
  {
    StartInvariant(reg, listed);
    if run :| FinishedRun(reg, listed, run) {
      RunKeepsInvariant(reg, Elements(listed), run);
      SureIsSound(reg, Elements(listed), run[|run| - 1]);
    }
    if Sound(reg, Elements(listed), false) {
      var run := RunToEmpty(reg, Elements(listed), Start(reg, listed));
      assert FinishedRun(reg, listed, run);
    }
  }

  /** So, unless a contract that is downloaded again passes on one that it does not name, the loop can come to its
      regular end exactly when every followed contract can be had and refers only to what is there. One dangling
      reference keeps the loop going for ever. */
  lemma FinishesIff(reg: Registry, listed: seq<Id>)
    requires reg.Valid() && Determined(reg, Elements(listed))
    ensures (exists run :: FinishedRun(reg, listed, run)) <==> Sound(reg, Elements(listed), false)
  {
    FinishesBetween(reg, listed);
    SoundAlike(reg, Elements(listed));
  }

  /** If no required contract is always downloaded, the loop can come to its regular end exactly when every contract
      required, directly or not, can be had and refers only to what its dependencies offer. */
  lemma FinishesIffRequired(reg: Registry, listed: seq<Id>)
    requires reg.Valid() && Ordinary(reg, Elements(listed))
    ensures (exists run :: FinishedRun(reg, listed, run)) <==>
            (forall c :: Required(reg, Elements(listed), c) ==> Available(reg, c) && !Dangling(reg, c))
  {
    OrdinaryIsDetermined(reg, Elements(listed));
    FinishesIff(reg, listed);
    forall c ensures Reached(Followed(reg, false), Elements(listed), c) <==> Required(reg, Elements(listed), c) {
      RequiredIsFollowed(reg, Elements(listed), c);
    }
  }

  /** Once a contract with a dangling reference is queued, it stays queued whatever happens. */
  lemma {:induction false} DanglingStaysQueued(reg: Registry, c: Id, run: seq<Work>)
    requires reg.Valid() && IsRun(reg, run) && Dangling(reg, c)
    requires c in run[0].queue && c !in run[0].deps
    ensures c in run[|run| - 1].queue && c !in run[|run| - 1].deps
  {
    if |run| > 1 {
      var s, t := run[0], run[1];
      assert c == s.queue[0] || c in s.queue[1..];
      if s.queue[0] !in s.deps {
        var pushed :| Elements(pushed) == DetectHead(reg, s).dependencies && t == Step(reg, s, pushed);
        StepMembers(reg, s, pushed);
        var head := s.queue[0];
        DetectIsTrue(reg, head, if Cached(reg, s, head) then s.data - {head} else s.data);
      }
      DanglingStaysQueued(reg, c, run[1..]);
    }
  }

  /** A contract downloaded in spite of being loaded (an sBTC contract on testnet) hides its own dependencies
      from the detector: they are recorded truly exactly when it was not loaded or has none. */
  lemma AlwaysRetrievedHidesDependencies(reg: Registry, s: Work, pushed: seq<Id>)
    requires reg.Valid() && CanStep(reg, s) && s.queue[0] !in s.deps
    requires s.queue[0] in reg.alwaysRetrieved
    requires DetectHead(reg, s).unresolved == []
    ensures var c := s.queue[0];
            Step(reg, s, pushed).deps[c] == TrueDependencies(reg, c) <==>
            c !in s.data || TrueDependencies(reg, c) == {}
  {
    DetectIsTrue(reg, s.queue[0], s.data);
  }

  /** Listing only such a contract ends after one turn, with none of its dependencies discovered. */
  lemma AlwaysRetrievedAloneIsNotClosed(reg: Registry, c: Id, run: seq<Work>)
    requires reg.Valid() && FinishedRun(reg, [c], run)
    requires c in reg.alwaysRetrieved && c in reg.seeded && c in reg.retrievable
    requires Detect(reg, c, reg.seeded).unresolved == []
    ensures |run| == 2 && run[1].deps == map[c := {}]
  {
    assert Reversed([c]) == [c];
    assert run[0].queue == [c];
    assert |run| > 1;
    assert Next(reg, run[0], run[1]);
    DetectIsTrue(reg, c, reg.seeded);
    var pushed :| Elements(pushed) == DetectHead(reg, run[0]).dependencies && run[1] == Step(reg, run[0], pushed);
    EmptyElements(pushed);
    RunEndsWithQueue(reg, run[1..]);
  }

  lemma EmptyElements(s: seq<Id>)
    ensures s == [] <==> Elements(s) == {}
  {
    if s != [] {
      assert s[0] in Elements(s);
    }
  }

  lemma RunEndsWithQueue(reg: Registry, run: seq<Work>)
    requires IsRun(reg, run) && run[0].queue == []
    ensures |run| == 1
  {
  }

  /** `push_front` of each id in turn. */
  method PushFront(queue: seq<Id>, ids: seq<Id>) returns (longer: seq<Id>)
    ensures longer == Reversed(ids) + queue
  {
    longer := queue;
    for i := 0 to |ids|
      invariant longer == Reversed(ids[..i]) + queue
    {
      ReversedAppend(ids[..i], ids[i]);
      assert ids[..i + 1] == ids[..i] + [ids[i]];
      longer := [ids[i]] + longer;
    }
    assert ids[..|ids|] == ids;
  }

  /** `push_back` of each id of a set, in an arbitrary order. */
  method PushBack(queue: seq<Id>, ids: set<Id>) returns (longer: seq<Id>, ghost pushed: seq<Id>)
    ensures longer == queue + pushed && Elements(pushed) == ids
    ensures |longer| == |queue| + |ids| && queue <= longer && Elements(longer[|queue|..]) == ids
  {
    longer, pushed := queue, [];
    var rest := ids;
    while rest != {}
      invariant rest <= ids && longer == queue + pushed && Elements(pushed) == ids - rest
      invariant |pushed| == |ids| - |rest|
    {
      var id :| id in rest;
      longer := longer + [id];
      assert Elements(pushed + [id]) == Elements(pushed) + {id};
      pushed := pushed + [id];
      rest := rest - {id};
    }
  }

  /** One turn of the loop on the head of the queue, or the id whose download failed. */
  method Turn(reg: Registry, s: Work) returns (r: Result<Work, Id>)
    requires reg.Valid() && s.queue != [] && KeysAgree(reg, s)
    ensures r.Success? <==> CanStep(reg, s)
    ensures r.Success? ==> Next(reg, s, r.value)
    ensures r.Failure? ==> r.error == s.queue[0] && !Available(reg, r.error)
  {
    var c := s.queue[0];
    if c in s.deps {
      r := Success(s.(queue := s.queue[1..]));
      assert r.value == Step(reg, s, []);
      return;
    }
    var cached := Cached(reg, s, c);
    if !cached && c !in reg.retrievable {
      return Failure(c);
    }
    var found := Detect(reg, c, if cached then s.data - {c} else s.data);
    var queue, pushed := PushBack(s.queue[1..], found.dependencies);
    var retrieved := if cached then s.retrieved else s.retrieved + {c};
    if found.unresolved == [] {
      r := Success(Work(queue, s.data + {c}, s.deps[c := found.dependencies], retrieved));
    } else {
      queue := PushFront([c] + queue, found.unresolved);
      r := Success(Work(queue, s.data + {c}, s.deps, retrieved));
    }
    assert r.value == Step(reg, s, pushed);
  }

  /** Downloads and analyses the listed requirements and everything they lead to. Called on requirements that lead to
      a contract which refers to something its dependencies lack, the source does not return. */
  method DiscoverRequirements(reg: Registry, listed: seq<Id>) returns (r: Result<Work, Id>)
    requires reg.Valid()
    requires forall c :: Reached(Followed(reg, false), Elements(listed), c) ==> !Dangling(reg, c)
    ensures r.Success? ==> Invariant(reg, Elements(listed), r.value) && r.value.queue == []
    ensures r.Success? ==> forall c :: Reached(Followed(reg, true), Elements(listed), c) ==> c in r.value.deps
    ensures r.Success? ==> forall c :: c in r.value.deps ==> Reached(Followed(reg, false), Elements(listed), c)
    ensures r.Success? ==> Sound(reg, Elements(listed), true)
    ensures r.Failure? ==> Reached(Followed(reg, false), Elements(listed), r.error) && !Available(reg, r.error)
    ensures Determined(reg, Elements(listed)) ==> (r.Success? <==> Sound(reg, Elements(listed), false))
  {
    var queue := PushFront([], listed);
    var s := Work(queue, reg.seeded, map[], {});
    assert s == Start(reg, listed);
    StartInvariant(reg, listed);
    while s.queue != []
      invariant Invariant(reg, Elements(listed), s)
      decreases reg.book.Keys - s.data, reg.book.Keys - s.deps.Keys, HeadLoaded(s), |s.queue|
    {
      assert Kept(s, s.queue[0]);
      var next := Turn(reg, s);
      if next.Failure? {
        return next;
      }
      StepKeepsInvariant(reg, Elements(listed), s, next.value);
      StepProgresses(reg, s, next.value);
      s := next.value;
    }
    forall c {
      RecordedIsFollowed(reg, Elements(listed), s, c);
    }
    SureIsSound(reg, Elements(listed), s);
    if Determined(reg, Elements(listed)) {
      SoundAlike(reg, Elements(listed));
    }
    r := Success(s);
  }

  lemma {:induction false} ReversedAppend(s: seq<Id>, x: Id)
    ensures Reversed(s + [x]) == [x] + Reversed(s)
  {
    if s != [] {
      assert (s + [x])[1..] == s[1..] + [x];
      ReversedAppend(s[1..], x);
    }
  }
}
