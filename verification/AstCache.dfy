/** The cache of parsed contracts and its restore guard: builds that use it, fail midway or are given up,
    give the same syntax trees and diagnostics as parsing everything anew. */
module AstCache {
  import opened Common

  type Path(==, !new)
  type Source(==, !new)
  type Hash(==, !new)
  type Version(==, !new)
  type Ast(!new)
  type Diagnostics(!new)

  datatype Environment = Simnet | OnChain

  type Key = (Path, Environment)

  /** What parsing yields. */
  datatype Parsed = Parsed(ast: Ast, diags: Diagnostics, success: bool)

  /** The parser reads the contract's identifier, source, version and epoch, and nothing else. */
  datatype Parser = Parser(
    parse: (Id, Source, Version, Epoch) -> Parsed,
    hash: Source -> Hash
  )

  datatype ContractSource = ContractSource(id: Id, path: Path, source: Source, version: Version, epoch: Epoch)

  datatype CachedContractAST = CachedContractAST(contentHash: Hash, parsed: Parsed, version: Version, epoch: Epoch)
  {
    /** An entry answers for a source with its hash, parsed at its version and epoch. */
    predicate Matches(contentHash: Hash, version: Version, epoch: Epoch) {
      this.contentHash == contentHash && this.version == version && this.epoch == epoch
    }
  }

  type Entries = map<Key, CachedContractAST>

  function NewEntry(parser: Parser, source: Source, parsed: Parsed, version: Version, epoch: Epoch): CachedContractAST {
    CachedContractAST(parser.hash(source), parsed, version, epoch)
  }

  /** Parsing without a cache. */
  function Cold(parser: Parser, c: ContractSource): Parsed {
    parser.parse(c.id, c.source, c.version, c.epoch)
  }

  function ColdEntry(parser: Parser, c: ContractSource): CachedContractAST {
    NewEntry(parser, c.source, Cold(parser, c), c.version, c.epoch)
  }

  function KeyOf(c: ContractSource, env: Environment): Key {
    (c.path, env)
  }

  // ---------------------------------------------------------------- what makes an entry good

  /** The standing assumptions: distinct sources seen have distinct hashes, and a path keeps its contract. */
  datatype Habits = Habits(parser: Parser, seen: iset<Source>, idAt: Path -> Id)
  {
    ghost predicate HashesTellApart() {
      forall s, t :: s in seen && t in seen && parser.hash(s) == parser.hash(t) ==> s == t
    }

    ghost predicate Follows(contracts: seq<ContractSource>) {
      forall i :: 0 <= i < |contracts| ==> contracts[i].source in seen && contracts[i].id == idAt(contracts[i].path)
    }

    /** The entry holds what parsing some source seen gives for the contract at this path. */
    ghost predicate GoodEntry(key: Key, entry: CachedContractAST) {
      exists s :: s in seen && entry == NewEntry(parser, s, parser.parse(idAt(key.0), s, entry.version, entry.epoch),
                                                 entry.version, entry.epoch)
    }

    ghost predicate Good(entries: Entries) {
      forall key :: key in entries ==> GoodEntry(key, entries[key])
    }

    /** A good entry that matches a contract holds what parsing this contract gives. */
    lemma MatchingEntryIsCold(c: ContractSource, key: Key, entry: CachedContractAST)
      requires HashesTellApart() && c.source in seen && c.id == idAt(c.path) && key.0 == c.path
      requires GoodEntry(key, entry) && entry.Matches(parser.hash(c.source), c.version, c.epoch)
      ensures entry == ColdEntry(parser, c)
    {
    }
  }

  // ---------------------------------------------------------------- the guard

  class InputCache {
    var entries: Entries

    constructor (entries: Entries)
      ensures this.entries == entries
    {
      this.entries := entries;
    }
  }

  class AstCacheRestoreGuard {
    const inputCache: InputCache
    var pending: Entries
    var committed: bool

    constructor (inputCache: InputCache)
      ensures this.inputCache == inputCache && pending == map[] && !committed
    {
      this.inputCache := inputCache;
      pending, committed := map[], false;
    }

    /** Takes the entry out of the input cache, and hands it over if it matches. */
    method TryReuse(key: Key, contentHash: Hash, version: Version, epoch: Epoch) returns (r: Option<CachedContractAST>)
      modifies inputCache
      ensures inputCache.entries == old(inputCache.entries) - {key}
      ensures r == if key in old(inputCache.entries) &&
                old(inputCache.entries)[key].Matches(contentHash, version, epoch)
                   then Some(old(inputCache.entries)[key]) else None
    {
      if key !in inputCache.entries {
        assert inputCache.entries - {key} == inputCache.entries;
        return None;
      }
      var entry := inputCache.entries[key];
      inputCache.entries := inputCache.entries - {key};
      r := if entry.Matches(contentHash, version, epoch) then Some(entry) else None;
    }

    method Insert(key: Key, entry: CachedContractAST)
      modifies this
      ensures pending == old(pending)[key := entry] && committed == old(committed)
    {
      pending := pending[key := entry];
    }

    method Commit() returns (entries: Entries)
      modifies this
      ensures committed && pending == map[] && entries == old(pending)
    {
      committed := true;
      entries := pending;
      pending := map[];
    }

    /** Runs when the guard goes out of scope, on every path. */
    method Drop()
      modifies this, inputCache
      ensures inputCache.entries ==
                if old(committed) then old(inputCache.entries) else old(inputCache.entries) + old(pending)
    {
      if !committed {
        inputCache.entries := inputCache.entries + pending;
        pending := map[];
      }
    }
  }

  // ---------------------------------------------------------------- one build

  /** Where a build is given up, if it is: after so many contracts (`None` when all are done but ordering them
      fails or the like), or in the middle of parsing the next one. */
  datatype Ending = Completes | StopsAfter(count: nat) | PanicsParsing(count: nat) | FailsAtTheEnd

  datatype Build = Finished(parsed: map<Id, Parsed>, success: bool, entries: Entries) | Aborted

  function Upto(ending: Ending, total: nat): nat {
    match ending
    case StopsAfter(count) => if count < total then count else total
    case PanicsParsing(count) => if count < total then count else total
    case _ => total
  }

  // The uncached computation over the first contracts: trees and diagnostics, the success flag, cache entries.

  function ColdParsed(parser: Parser, contracts: seq<ContractSource>): map<Id, Parsed> {
    if contracts == [] then map[]
    else
      var c := contracts[|contracts| - 1];
      ColdParsed(parser, contracts[..|contracts| - 1])[c.id := Cold(parser, c)]
  }

  function ColdSuccess(parser: Parser, contracts: seq<ContractSource>): bool {
    contracts == [] ||
    (ColdSuccess(parser, contracts[..|contracts| - 1]) && Cold(parser, contracts[|contracts| - 1]).success)
  }

  function ColdEntries(parser: Parser, contracts: seq<ContractSource>, env: Environment): Entries {
    if contracts == [] then map[]
    else
      var c := contracts[|contracts| - 1];
      ColdEntries(parser, contracts[..|contracts| - 1], env)[KeyOf(c, env) := ColdEntry(parser, c)]
  }

  function KeysOf(contracts: seq<ContractSource>, env: Environment): set<Key> {
    set i | 0 <= i < |contracts| :: KeyOf(contracts[i], env)
  }

  lemma {:induction false} ColdEntriesKeys(parser: Parser, contracts: seq<ContractSource>, env: Environment)
    ensures ColdEntries(parser, contracts, env).Keys == KeysOf(contracts, env)
  {
    if contracts != [] {
      var init := contracts[..|contracts| - 1];
      ColdEntriesKeys(parser, init, env);
      assert KeysOf(contracts, env) == KeysOf(init, env) + {KeyOf(contracts[|contracts| - 1], env)};
    }
  }

  lemma {:induction false} ColdEntriesAreGood(h: Habits, contracts: seq<ContractSource>, env: Environment)
    requires h.Follows(contracts)
    ensures h.Good(ColdEntries(h.parser, contracts, env))
  {
    if contracts != [] {
      var c := contracts[|contracts| - 1];
      ColdEntriesAreGood(h, contracts[..|contracts| - 1], env);
      assert h.GoodEntry(KeyOf(c, env), ColdEntry(h.parser, c)) by {
        assert c.source in h.seen && c.id == h.idAt(c.path);
      }
    }
  }

  // The computation over a cache, whatever it holds: a contract takes the entry under its key out of the cache, and
  // another contract with this key finds none.

  predicate Hits(parser: Parser, entries: Entries, c: ContractSource, env: Environment) {
    KeyOf(c, env) in entries && entries[KeyOf(c, env)].Matches(parser.hash(c.source), c.version, c.epoch)
  }

  function Obtained(parser: Parser, entries: Entries, c: ContractSource, env: Environment): CachedContractAST {
    if Hits(parser, entries, c, env) then entries[KeyOf(c, env)] else ColdEntry(parser, c)
  }

  /** What contract `i` gets, when the contracts before it have taken theirs. */
  function WarmEntry(parser: Parser, entries: Entries, contracts: seq<ContractSource>, env: Environment,
      i: nat): CachedContractAST
    requires i < |contracts|
  {
    Obtained(parser, entries - KeysOf(contracts[..i], env), contracts[i], env)
  }

  function WarmParsed(parser: Parser, entries: Entries, contracts: seq<ContractSource>, env: Environment)
      : map<Id, Parsed>
  {
    if contracts == [] then map[]
    else
      var n := |contracts| - 1;
      var earlier := WarmParsed(parser, entries, contracts[..n], env);
      earlier[contracts[n].id := WarmEntry(parser, entries, contracts, env, n).parsed]
  }

  function WarmSuccess(parser: Parser, entries: Entries, contracts: seq<ContractSource>, env: Environment): bool {
    contracts == [] ||
    (WarmSuccess(parser, entries, contracts[..|contracts| - 1], env)
     && WarmEntry(parser, entries, contracts, env, |contracts| - 1).parsed.success)
  }

  function WarmEntries(parser: Parser, entries: Entries, contracts: seq<ContractSource>, env: Environment): Entries {
    if contracts == [] then map[]
    else
      var n := |contracts| - 1;
      var earlier := WarmEntries(parser, entries, contracts[..n], env);
      earlier[KeyOf(contracts[n], env) := WarmEntry(parser, entries, contracts, env, n)]
  }

  lemma KeysOfOneMore(contracts: seq<ContractSource>, env: Environment)
    requires contracts != []
    ensures KeysOf(contracts, env) ==
              KeysOf(contracts[..|contracts| - 1], env) + {KeyOf(contracts[|contracts| - 1], env)}
  {
    var init, last := contracts[..|contracts| - 1], contracts[|contracts| - 1];
    forall key | key in KeysOf(contracts, env) ensures key in KeysOf(init, env) + {KeyOf(last, env)} {
      var i :| 0 <= i < |contracts| && KeyOf(contracts[i], env) == key;
      if i < |init| {
        assert KeyOf(init[i], env) == key;
      }
    }
    forall key | key in KeysOf(init, env) ensures key in KeysOf(contracts, env) {
      var i :| 0 <= i < |init| && KeyOf(init[i], env) == key;
      assert KeyOf(contracts[i], env) == key;
    }
    assert KeyOf(contracts[|init|], env) in KeysOf(contracts, env);
  }

  lemma {:induction false} WarmEntriesKeys(parser: Parser, entries: Entries, contracts: seq<ContractSource>,
      env: Environment)
    ensures WarmEntries(parser, entries, contracts, env).Keys == KeysOf(contracts, env)
  {
    if contracts != [] {
      WarmEntriesKeys(parser, entries, contracts[..|contracts| - 1], env);
      KeysOfOneMore(contracts, env);
    }
  }

  /** Over good entries the cache makes no difference. */
  lemma {:induction false} WarmIsCold(h: Habits, entries: Entries, contracts: seq<ContractSource>, env: Environment)
    requires h.HashesTellApart() && h.Follows(contracts) && h.Good(entries)
    ensures WarmParsed(h.parser, entries, contracts, env) == ColdParsed(h.parser, contracts)
    ensures WarmSuccess(h.parser, entries, contracts, env) == ColdSuccess(h.parser, contracts)
    ensures WarmEntries(h.parser, entries, contracts, env) == ColdEntries(h.parser, contracts, env)
  {
    if contracts != [] {
      var n := |contracts| - 1;
      WarmIsCold(h, entries, contracts[..n], env);
      WarmEntryIsCold(h, entries, contracts, env, n);
    }
  }

  lemma WarmEntryIsCold(h: Habits, entries: Entries, contracts: seq<ContractSource>, env: Environment, i: nat)
    requires h.HashesTellApart() && h.Follows(contracts) && h.Good(entries) && i < |contracts|
    ensures WarmEntry(h.parser, entries, contracts, env, i) == ColdEntry(h.parser, contracts[i])
  {
    var c, rest := contracts[i], entries - KeysOf(contracts[..i], env);
    if Hits(h.parser, rest, c, env) {
      h.MatchingEntryIsCold(c, KeyOf(c, env), rest[KeyOf(c, env)]);
    }
  }

  predicate ParsesWell(parser: Parser, c: ContractSource) {
    parser.parse(c.id, c.source, c.version, c.epoch).success
  }

  /** A build without a cache succeeds exactly when every contract parses, and gives a tree for each contract. */
  lemma {:induction false} ColdBuildIs(parser: Parser, contracts: seq<ContractSource>)
    ensures ColdSuccess(parser, contracts) <==> forall i :: 0 <= i < |contracts| ==> ParsesWell(parser, contracts[i])
    ensures forall id :: id in ColdParsed(parser, contracts) <==>
              exists i :: 0 <= i < |contracts| && contracts[i].id == id
    ensures DistinctIds(contracts) ==>
              forall i :: 0 <= i < |contracts| ==>
                && contracts[i].id in ColdParsed(parser, contracts)
                && ColdParsed(parser, contracts)[contracts[i].id] ==
                     parser.parse(contracts[i].id, contracts[i].source, contracts[i].version, contracts[i].epoch)
  {
    if contracts != [] {
      ColdBuildIs(parser, contracts[..|contracts| - 1]);
    }
  }

  /** A build over any cache succeeds exactly when every tree it gives, from the cache or by parsing, is a success. */
  lemma {:induction false} WarmSuccessIff(parser: Parser, entries: Entries, contracts: seq<ContractSource>,
      env: Environment)
    ensures WarmSuccess(parser, entries, contracts, env) <==>
            forall i :: 0 <= i < |contracts| ==>
              if HitBy(parser, entries, contracts, env, i) then entries[KeyOf(contracts[i], env)].parsed.success
              else ParsesWell(parser, contracts[i])
  {
    if contracts != [] {
      var n := |contracts| - 1;
      WarmSuccessIff(parser, entries, contracts[..n], env);
      forall i | 0 <= i < n
        ensures HitBy(parser, entries, contracts[..n], env, i) == HitBy(parser, entries, contracts, env, i)
      {
        assert contracts[..n][..i] == contracts[..i];
      }
    }
  }

  /** Entries are told apart by path and environment. */
  lemma KeysAgreeIff(c: ContractSource, env: Environment, d: ContractSource, other: Environment)
    ensures KeyOf(c, env) == KeyOf(d, other) <==> c.path == d.path && env == other
  {
  }

  // ---------------------------------------------------------------- without assumptions on paths

  ghost predicate DistinctIds(contracts: seq<ContractSource>) {
    forall i, j :: 0 <= i < j < |contracts| ==> contracts[i].id != contracts[j].id
  }

  /** Contract `i` gets an entry from the cache. */
  predicate HitBy(parser: Parser, entries: Entries, contracts: seq<ContractSource>, env: Environment, i: int) {
    0 <= i < |contracts| && Hits(parser, entries - KeysOf(contracts[..i], env), contracts[i], env)
  }

  /** A build over any cache gives what parsing anew gives exactly when every entry that it takes from the cache
      holds what its contract parses as. */
  lemma {:induction false} RightIff(parser: Parser, entries: Entries, contracts: seq<ContractSource>, env: Environment)
    requires DistinctIds(contracts)
    ensures WarmParsed(parser, entries, contracts, env) == ColdParsed(parser, contracts) <==>
            forall i :: HitBy(parser, entries, contracts, env, i) ==>
              entries[KeyOf(contracts[i], env)].parsed == Cold(parser, contracts[i])
  {
    if contracts != [] {
      var n := |contracts| - 1;
      var init := contracts[..n];
      RightIff(parser, entries, init, env);
      forall i ensures HitBy(parser, entries, contracts, env, i) <==>
          HitBy(parser, entries, init, env, i) || (i == n && HitBy(parser, entries, contracts, env, n))
      {
        if 0 <= i < n {
          assert init[..i] == contracts[..i] && init[i] == contracts[i];
        }
      }
      ParsedIds(parser, entries, init, env, contracts[n].id);
      SameUpdate(WarmParsed(parser, entries, init, env), ColdParsed(parser, init), contracts[n].id,
                 WarmEntry(parser, entries, contracts, env, n).parsed, Cold(parser, contracts[n]));
    }
  }

  lemma SameUpdate(a: map<Id, Parsed>, b: map<Id, Parsed>, id: Id, p: Parsed, q: Parsed)
    requires id !in a && id !in b
    ensures a[id := p] == b[id := q] <==> a == b && p == q
  {
    if a[id := p] == b[id := q] {
      assert a[id := p][id] == p && b[id := q][id] == q;
      assert a == a[id := p] - {id} && b == b[id := q] - {id};
    }
  }

  lemma {:induction false} ParsedIds(parser: Parser, entries: Entries, contracts: seq<ContractSource>, env: Environment,
      id: Id)
    requires forall i :: 0 <= i < |contracts| ==> contracts[i].id != id
    ensures id !in WarmParsed(parser, entries, contracts, env) && id !in ColdParsed(parser, contracts)
  {
    if contracts != [] {
      ParsedIds(parser, entries, contracts[..|contracts| - 1], env, id);
    }
  }

  /** Of the contracts that share a path, the last one's entry is in the cache after a build. */
  predicate IsLastAt(contracts: seq<ContractSource>, path: Path, j: int) {
    0 <= j < |contracts| && contracts[j].path == path && forall k :: j < k < |contracts| ==> contracts[k].path != path
  }

  lemma {:induction false} LastEntryStays(parser: Parser, contracts: seq<ContractSource>, env: Environment, path: Path,
      j: int)
    requires IsLastAt(contracts, path, j)
    ensures var entries := ColdEntries(parser, contracts, env);
            (path, env) in entries && entries[(path, env)] == ColdEntry(parser, contracts[j])
  {
    var n := |contracts| - 1;
    if j < n {
      assert IsLastAt(contracts[..n], path, j);
      LastEntryStays(parser, contracts[..n], env, path, j);
    }
  }

  lemma {:induction false} SomeLastAt(contracts: seq<ContractSource>, path: Path, i: int) returns (j: int)
    requires 0 <= i < |contracts| && contracts[i].path == path
    ensures IsLastAt(contracts, path, j)
  {
    var n := |contracts| - 1;
    if contracts[n].path == path {
      j := n;
    } else {
      j := SomeLastAt(contracts[..n], path, i);
    }
  }

  /** Contract `i` of a build gets the entry of contract `j` of the build before: `j` is the last one at that path,
      `i` the first, and hash, version and epoch agree. */
  predicate Reuses(parser: Parser, before: seq<ContractSource>, contracts: seq<ContractSource>, i: int, j: int) {
    && 0 <= i < |contracts| && IsLastAt(before, contracts[i].path, j)
    && (forall k :: 0 <= k < i ==> contracts[k].path != contracts[i].path)
    && parser.hash(before[j].source) == parser.hash(contracts[i].source)
    && before[j].version == contracts[i].version && before[j].epoch == contracts[i].epoch
  }

  lemma HitByIff(parser: Parser, before: seq<ContractSource>, contracts: seq<ContractSource>, env: Environment, i: int)
    ensures HitBy(parser, ColdEntries(parser, before, env), contracts, env, i) <==>
              exists j :: Reuses(parser, before, contracts, i, j)
  {
    var entries := ColdEntries(parser, before, env);
    ColdEntriesKeys(parser, before, env);
    if 0 <= i < |contracts| {
      KeyIsFree(contracts, env, i);
      var key := KeyOf(contracts[i], env);
      if HitBy(parser, entries, contracts, env, i) {
        var k :| 0 <= k < |before| && KeyOf(before[k], env) == key;
        var j := SomeLastAt(before, contracts[i].path, k);
        LastEntryStays(parser, before, env, contracts[i].path, j);
        assert Reuses(parser, before, contracts, i, j);
      }
      if j :| Reuses(parser, before, contracts, i, j) {
        LastEntryStays(parser, before, env, contracts[i].path, j);
      }
    }
  }

  lemma KeyIsFree(contracts: seq<ContractSource>, env: Environment, i: nat)
    requires i < |contracts|
    ensures KeyOf(contracts[i], env) !in KeysOf(contracts[..i], env) <==>
            forall k :: 0 <= k < i ==> contracts[k].path != contracts[i].path
  {
    if k :| 0 <= k < i && contracts[k].path == contracts[i].path {
      assert KeyOf(contracts[..i][k], env) == KeyOf(contracts[i], env);
    }
  }

  /** The key of an entry holds no contract identifier. So a build over the cache that an earlier build left gives what
      parsing anew gives exactly when every contract that gets an earlier contract's entry parses as that one did. */
  lemma RebuiltIff(parser: Parser, before: seq<ContractSource>, contracts: seq<ContractSource>, env: Environment)
    requires DistinctIds(contracts)
    ensures WarmParsed(parser, ColdEntries(parser, before, env), contracts, env) == ColdParsed(parser, contracts) <==>
            forall i, j :: Reuses(parser, before, contracts, i, j) ==>
                Cold(parser, before[j]) == Cold(parser, contracts[i])
  {
    var entries := ColdEntries(parser, before, env);
    RightIff(parser, entries, contracts, env);
    forall i, j | Reuses(parser, before, contracts, i, j)
      ensures HitBy(parser, entries, contracts, env, i)
      ensures entries[KeyOf(contracts[i], env)].parsed == Cold(parser, before[j])
    {
      HitByIff(parser, before, contracts, env, i);
      LastEntryStays(parser, before, env, contracts[i].path, j);
    }
    forall i | HitBy(parser, entries, contracts, env, i) ensures exists j :: Reuses(parser, before, contracts, i, j) {
      HitByIff(parser, before, contracts, env, i);
    }
  }

  /** A contract renamed in the manifest gets the old one's tree: that is right exactly if both names parse alike. */
  lemma RenamedIff(parser: Parser, c: ContractSource, id: Id, env: Environment)
    ensures var renamed := c.(id := id);
            WarmParsed(parser, ColdEntries(parser, [c], env), [renamed], env) == ColdParsed(parser, [renamed]) <==>
            parser.parse(c.id, c.source, c.version, c.epoch) == parser.parse(id, c.source, c.version, c.epoch)
  {
    var renamed := c.(id := id);
    RebuiltIff(parser, [c], [renamed], env);
    assert IsLastAt([c], c.path, 0);
    assert Reuses(parser, [c], [renamed], 0, 0);
  }

  /** Of two contracts that share a path, the first one gets the second one's tree when both are built again. */
  lemma SharedPathIff(parser: Parser, c: ContractSource, id: Id, env: Environment)
    requires id != c.id
    ensures var both := [c, c.(id := id)];
            WarmParsed(parser, ColdEntries(parser, both, env), both, env) == ColdParsed(parser, both) <==>
            parser.parse(id, c.source, c.version, c.epoch) == parser.parse(c.id, c.source, c.version, c.epoch)
  {
    var both := [c, c.(id := id)];
    RebuiltIff(parser, both, both, env);
    assert both[0].path == both[1].path;
    assert IsLastAt(both, c.path, 1);
    assert Reuses(parser, both, both, 0, 1);
  }

  // ---------------------------------------------------------------- the loop

  /** Gets one contract's entry, from the cache or by parsing. */
  method Obtain(guard: AstCacheRestoreGuard, parser: Parser, c: ContractSource, env: Environment)
      returns (entry: CachedContractAST)
    modifies guard.inputCache
    ensures entry == Obtained(parser, old(guard.inputCache.entries), c, env)
    ensures guard.inputCache.entries == old(guard.inputCache.entries) - {KeyOf(c, env)}
  {
    var contentHash := parser.hash(c.source);
    var reused := guard.TryReuse(KeyOf(c, env), contentHash, c.version, c.epoch);
    if reused.Some? {
      entry := reused.value;
    } else {
      var parsed := parser.parse(c.id, c.source, c.version, c.epoch);
      entry := NewEntry(parser, c.source, parsed, c.version, c.epoch);
    }
  }

  /** The loop over the contracts. */
  method ParseAll(parser: Parser, guard: AstCacheRestoreGuard, contracts: seq<ContractSource>, env: Environment)
      returns (parsed: map<Id, Parsed>, success: bool)
    requires guard.pending == map[] && !guard.committed
    modifies guard, guard.inputCache
    ensures !guard.committed
    ensures guard.inputCache.entries == old(guard.inputCache.entries) - KeysOf(contracts, env)
    ensures guard.pending == WarmEntries(parser, old(guard.inputCache.entries), contracts, env)
    ensures parsed == WarmParsed(parser, old(guard.inputCache.entries), contracts, env)
    ensures success == WarmSuccess(parser, old(guard.inputCache.entries), contracts, env)
  {
    ghost var before := guard.inputCache.entries;
    parsed, success := map[], true;
    assert before == before - KeysOf(contracts[..0], env);
    for i := 0 to |contracts|
      invariant !guard.committed
      invariant guard.inputCache.entries == before - KeysOf(contracts[..i], env)
      invariant guard.pending == WarmEntries(parser, before, contracts[..i], env)
      invariant parsed == WarmParsed(parser, before, contracts[..i], env)
      invariant success == WarmSuccess(parser, before, contracts[..i], env)
    {
      var c := contracts[i];
      assert contracts[..i + 1][..i] == contracts[..i];
      KeysOfOneMore(contracts[..i + 1], env);
      var entry := Obtain(guard, parser, c, env);
      assert entry == WarmEntry(parser, before, contracts[..i + 1], env, i);
      parsed := parsed[c.id := entry.parsed];
      success := success && entry.parsed.success;
      guard.Insert(KeyOf(c, env), entry);
    }
    assert contracts[..|contracts|] == contracts;
  }

  predicate RunsThrough(ending: Ending, total: nat) {
    match ending
    case Completes => true
    case FailsAtTheEnd => false
    case StopsAfter(count) => total <= count
    case PanicsParsing(count) => total <= count
  }

  /** The keys of the contracts a build has taken out of the input cache, the one it was parsing included. */
  function Touched(contracts: seq<ContractSource>, env: Environment, ending: Ending): set<Key> {
    if ending.PanicsParsing? && ending.count < |contracts| then KeysOf(contracts[..ending.count + 1], env)
    else KeysOf(contracts[..Upto(ending, |contracts|)], env)
  }

  /** One build over any cache. Completed, it gives one entry per contract; given up, it puts back an entry for every
      contract it got done and leaves the rest alone. */
  method BuildAsts(parser: Parser, input: InputCache, contracts: seq<ContractSource>, env: Environment, ending: Ending)
      returns (build: Build)
    modifies input
    ensures build.Finished? <==>
              || ending.Completes?
              || (ending.StopsAfter? && ending.count >= |contracts|)
              || (ending.PanicsParsing? && ending.count >= |contracts|)
    ensures build == if RunsThrough(ending, |contracts|)
                     then Finished(WarmParsed(parser, old(input.entries), contracts, env),
                                   WarmSuccess(parser, old(input.entries), contracts, env),
                                   WarmEntries(parser, old(input.entries), contracts, env))
                     else Aborted
    ensures build.Finished? ==>
              input.entries == old(input.entries) - build.entries.Keys && build.entries.Keys !! input.entries.Keys
    ensures build.Aborted? ==>
              input.entries == old(input.entries) - Touched(contracts, env, ending)
                               + WarmEntries(parser, old(input.entries), contracts[..Upto(ending, |contracts|)], env)
  {
    var guard := new AstCacheRestoreGuard(input);
    if RunsThrough(ending, |contracts|) {
      ghost var before := input.entries;
      var parsed, success := ParseAll(parser, guard, contracts, env);
      WarmEntriesKeys(parser, before, contracts, env);
      var entries := guard.Commit();
      guard.Drop();
      return Finished(parsed, success, entries);
    }
    GiveUp(parser, guard, contracts, env, ending);
    build := Aborted;
  }

  /** One build over good entries: completed, it gives what parsing anew gives, and however it ends, it leaves good
      entries. */
  lemma GoodBuild(h: Habits, before: Entries, contracts: seq<ContractSource>, env: Environment, ending: Ending)
    requires h.HashesTellApart() && h.Follows(contracts) && h.Good(before)
    ensures WarmParsed(h.parser, before, contracts, env) == ColdParsed(h.parser, contracts)
    ensures WarmSuccess(h.parser, before, contracts, env) == ColdSuccess(h.parser, contracts)
    ensures WarmEntries(h.parser, before, contracts, env) == ColdEntries(h.parser, contracts, env)
    ensures h.Good(ColdEntries(h.parser, contracts, env)) && h.Good(before - ColdEntries(h.parser, contracts, env).Keys)
    ensures var done := contracts[..Upto(ending, |contracts|)];
            && WarmEntries(h.parser, before, done, env) == ColdEntries(h.parser, done, env)
            && h.Good(before - Touched(contracts, env, ending) + ColdEntries(h.parser, done, env))
  {
    var done := contracts[..Upto(ending, |contracts|)];
    WarmIsCold(h, before, contracts, env);
    WarmIsCold(h, before, done, env);
    ColdEntriesAreGood(h, contracts, env);
    ColdEntriesAreGood(h, done, env);
  }

  lemma TouchedSoFar(contracts: seq<ContractSource>, env: Environment, ending: Ending)
    requires !RunsThrough(ending, |contracts|)
    ensures var count := Upto(ending, |contracts|);
            Touched(contracts, env, ending) == KeysOf(contracts[..count], env)
              + if ending.PanicsParsing? then {KeyOf(contracts[count], env)} else {}
  {
    if ending.PanicsParsing? {
      var count := ending.count;
      assert contracts[..count + 1] == contracts[..count] + [contracts[count]];
      var more, fewer := contracts[..count + 1], contracts[..count];
      forall key ensures key in KeysOf(more, env) <==>
          key in KeysOf(fewer, env) || key == KeyOf(contracts[count], env) {
        if key in KeysOf(fewer, env) {
          var i :| 0 <= i < |fewer| && KeyOf(fewer[i], env) == key;
          assert KeyOf(more[i], env) == key;
        }
        assert KeyOf(more[count], env) == KeyOf(contracts[count], env);
      }
    }
  }

  /** A build that does not get to its end: the guard is dropped without a commit. */
  method GiveUp(parser: Parser, guard: AstCacheRestoreGuard, contracts: seq<ContractSource>, env: Environment,
      ending: Ending)
    requires !RunsThrough(ending, |contracts|) && guard.pending == map[] && !guard.committed
    modifies guard, guard.inputCache
    ensures guard.inputCache.entries == old(guard.inputCache.entries) - Touched(contracts, env, ending)
              + WarmEntries(parser, old(guard.inputCache.entries), contracts[..Upto(ending, |contracts|)], env)
  {
    var count := Upto(ending, |contracts|);
    ghost var before, taken := guard.inputCache.entries, KeysOf(contracts[..count], env);
    var _, _ := ParseAll(parser, guard, contracts[..count], env);
    TouchedSoFar(contracts, env, ending);
    if ending.PanicsParsing? {
      TakeForParsing(parser, guard, contracts[count], env);
      assert guard.inputCache.entries == before - (taken + {KeyOf(contracts[count], env)});
    }
    guard.Drop();
  }

  /** The next entry has been taken out, and parsing panics. */
  method TakeForParsing(parser: Parser, guard: AstCacheRestoreGuard, c: ContractSource, env: Environment)
    modifies guard.inputCache
    ensures guard.inputCache.entries == old(guard.inputCache.entries) - {KeyOf(c, env)}
  {
    var _ := guard.TryReuse(KeyOf(c, env), parser.hash(c.source), c.version, c.epoch);
  }

  /** A contract a given-up build got done has its entry in the cache again. */
  lemma DoneContractsAreKept(parser: Parser, contracts: seq<ContractSource>, env: Environment, ending: Ending,
      before: Entries, i: nat)
    requires i < Upto(ending, |contracts|)
    requires forall j, k :: 0 <= j < k < |contracts| ==> contracts[j].path != contracts[k].path
    ensures var after := before - Touched(contracts, env, ending) +
              ColdEntries(parser, contracts[..Upto(ending, |contracts|)], env);
            KeyOf(contracts[i], env) in after && after[KeyOf(contracts[i], env)] == ColdEntry(parser, contracts[i])
  {
    EntryOf(parser, contracts[..Upto(ending, |contracts|)], env, i);
  }

  lemma {:induction false} EntryOf(parser: Parser, contracts: seq<ContractSource>, env: Environment, i: nat)
    requires i < |contracts|
    requires forall j, k :: 0 <= j < k < |contracts| ==> contracts[j].path != contracts[k].path
    ensures var entries := ColdEntries(parser, contracts, env);
            KeyOf(contracts[i], env) in entries && entries[KeyOf(contracts[i], env)] == ColdEntry(parser, contracts[i])
  {
    if i < |contracts| - 1 {
      EntryOf(parser, contracts[..|contracts| - 1], env, i);
    }
  }

  // ---------------------------------------------------------------- the editor's builds

  /** One save in the editor: the project's contracts in both environments, and how each build ends. */
  datatype Save = Save(onChain: seq<ContractSource>, simnet: seq<ContractSource>, onChainEnding: Ending,
      simnetEnding: Ending)

  datatype SaveResult = Saved(onChain: Build, simnet: Build) | NotSaved

  ghost predicate Usual(h: Habits, save: Save) {
    h.Follows(save.simnet) && h.Follows(save.onChain)
  }

  function ColdBuild(parser: Parser, contracts: seq<ContractSource>, env: Environment): Build {
    Finished(ColdParsed(parser, contracts), ColdSuccess(parser, contracts), ColdEntries(parser, contracts, env))
  }

  /** What a save gives without any cache: both builds, unless one of them is given up. */
  function SavedCold(parser: Parser, save: Save): SaveResult {
    if RunsThrough(save.onChainEnding, |save.onChain|) && RunsThrough(save.simnetEnding, |save.simnet|)
    then Saved(ColdBuild(parser, save.onChain, OnChain), ColdBuild(parser, save.simnet, Simnet))
    else NotSaved
  }

  /** A save gives results exactly when both builds get to their end: neither fails there, and neither is given up or
      panics before all contracts are done. */
  lemma SavedIff(parser: Parser, save: Save)
    ensures SavedCold(parser, save).Saved? <==>
            && !save.onChainEnding.FailsAtTheEnd? && !save.simnetEnding.FailsAtTheEnd?
            && (save.onChainEnding.Completes? || save.onChainEnding.count >= |save.onChain|)
            && (save.simnetEnding.Completes? || save.simnetEnding.count >= |save.simnet|)
    ensures SavedCold(parser, save).Saved? ==>
              && SavedCold(parser, save).onChain.success ==
                   (forall i :: 0 <= i < |save.onChain| ==> ParsesWell(parser, save.onChain[i]))
              && SavedCold(parser, save).simnet.success ==
                   (forall i :: 0 <= i < |save.simnet| ==> ParsesWell(parser, save.simnet[i]))
  {
    ColdBuildIs(parser, save.onChain);
    ColdBuildIs(parser, save.simnet);
  }

  lemma GoodTogether(h: Habits, a: Entries, b: Entries, c: Entries)
    requires h.Good(a) && h.Good(b) && h.Good(c)
    ensures h.Good(a + b + c)
  {
  }

  class EditorState {
    var astCache: Entries

    constructor ()
      ensures astCache == map[]
    {
      astCache := map[];
    }

    /** Builds on a copy of the cache, and adds the new entries to it only if both builds succeed. */
    method BuildAndCommit(ghost h: Habits, parser: Parser, save: Save) returns (result: SaveResult)
      requires parser == h.parser && h.HashesTellApart() && Usual(h, save) && h.Good(astCache)
      modifies this
      ensures h.Good(astCache)
      ensures result == SavedCold(parser, save)
      ensures astCache == if result.NotSaved? then old(astCache)
                          else old(astCache) + result.onChain.entries + result.simnet.entries
    {
      var input := new InputCache(astCache);
      GoodBuild(h, input.entries, save.onChain, OnChain, save.onChainEnding);
      var onChain := BuildAsts(parser, input, save.onChain, OnChain, save.onChainEnding);
      if onChain.Aborted? {
        return NotSaved;
      }
      GoodBuild(h, input.entries, save.simnet, Simnet, save.simnetEnding);
      var simnet := BuildAsts(parser, input, save.simnet, Simnet, save.simnetEnding);
      if simnet.Aborted? {
        return NotSaved;
      }
      GoodTogether(h, astCache, onChain.entries, simnet.entries);
      astCache := astCache + onChain.entries + simnet.entries;
      result := Saved(onChain, simnet);
    }
  }

  /** Over any sequence of saves, each completed or given up at any point, the cache changes nothing. */
  method BuildAll(ghost h: Habits, parser: Parser, saves: seq<Save>) returns (results: seq<SaveResult>)
    requires parser == h.parser && h.HashesTellApart()
    requires forall i :: 0 <= i < |saves| ==> Usual(h, saves[i])
    ensures |results| == |saves|
    ensures forall i :: 0 <= i < |saves| ==> results[i] == SavedCold(parser, saves[i])
  {
    var editor := new EditorState();
    results := [];
    for i := 0 to |saves|
      invariant fresh(editor) && h.Good(editor.astCache) && |results| == i
      invariant forall k :: 0 <= k < i ==> results[k] == SavedCold(parser, saves[k])
    {
      var result := editor.BuildAndCommit(h, parser, saves[i]);
      results := results + [result];
    }
  }
}
