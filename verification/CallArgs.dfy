/** Byte buffers that crossed JSON as maps from index to byte. */
module CallArgs {
  import opened Common

  type Byte = b: int | 0 <= b < 256

  datatype CallJson = CallJson(contract: string, name: string, argsMaps: seq<map<nat, Byte>>, sender: string)

  datatype CallFnArgs = CallFnArgs(contract: string, name: string, args: seq<seq<Byte>>, sender: string)

  const INVALID_INDEX := "Invalid argument byte index"

  /** What JSON makes of a buffer. */
  function IndexMap(bytes: seq<Byte>): map<nat, Byte> {
    map i: nat | i < |bytes| :: bytes[i]
  }

  /** The indexes below `n`. */
  function Below(n: nat): (indexes: set<nat>)
    ensures forall i: nat :: i in indexes <==> i < n
  {
    if n == 0 then {} else Below(n - 1) + {n - 1}
  }

  lemma {:induction false} BelowHasAll(n: nat)
    ensures |Below(n)| == n
  {
    if n > 0 {
      BelowHasAll(n - 1);
    }
  }

  /** As many indexes as there are places, each of them a place: none is left out. */
  lemma PigeonHole(m: map<nat, Byte>)
    requires forall i :: i in m ==> i < |m|
    ensures m.Keys == Below(|m|)
  {
    BelowHasAll(|m|);
    assert |m.Keys| == |m|;
    CardinalityOfSubset(m.Keys, Below(|m|));
  }

  lemma IndexMapIsInjective(a: seq<Byte>, b: seq<Byte>)
    requires IndexMap(a) == IndexMap(b)
    ensures a == b
  {
    IndexMapSize(a);
    IndexMapSize(b);
    forall i | 0 <= i < |a| ensures a[i] == b[i] {
      assert IndexMap(a)[i] == IndexMap(b)[i];
    }
  }

  lemma IndexMapSize(bytes: seq<Byte>)
    ensures IndexMap(bytes).Keys == Below(|bytes|) && |IndexMap(bytes)| == |bytes|
  {
    BelowHasAll(|bytes|);
    assert |IndexMap(bytes).Keys| == |IndexMap(bytes)|;
  }

  ghost predicate IsBuffer(m: map<nat, Byte>) {
    exists bytes :: IndexMap(bytes) == m
  }

  /** A map stands for a buffer when its indexes are the first ones. */
  lemma IsBufferIff(m: map<nat, Byte>)
    ensures IsBuffer(m) <==> m.Keys == Below(|m|)
    ensures IsBuffer(m) <==> forall i :: i in m ==> i < |m|
  {
    if bytes :| IndexMap(bytes) == m {
      IndexMapSize(bytes);
    }
    if forall i :: i in m ==> i < |m| {
      PigeonHole(m);
      Listed(m);
    }
  }

  lemma Listed(m: map<nat, Byte>)
    requires m.Keys == Below(|m|)
    ensures IsBuffer(m)
  {
    var bytes := seq(|m|, i requires 0 <= i < |m| => m[i]);
    assert IndexMap(bytes) == m;
  }

  /** Writes each entry at its index, the entries in any order. It succeeds exactly on the map of some buffer, and gives
      back that buffer: no byte keeps its initial zero for lack of an entry. */
  method ParseArg(m: map<nat, Byte>) returns (r: Result<seq<Byte>, string>)
    ensures r.Success? <==> m.Keys == Below(|m|)
    ensures r.Success? ==> IndexMap(r.value) == m
    ensures forall bytes :: IndexMap(bytes) == m ==> r == Success(bytes)
    ensures r.Failure? ==> r.error == INVALID_INDEX
  {
    var parsed := new Byte[|m|](_ => 0);
    var rest := m;
    while rest != map[]
      invariant rest.Keys <= m.Keys
      invariant forall i :: i in rest ==> rest[i] == m[i]
      invariant forall i :: i in m && i !in rest ==> i < |m| && parsed[i] == m[i]
      decreases |rest|
    {
      var i :| i in rest;
      if i >= parsed.Length {
        IsBufferIff(m);
        return Failure(INVALID_INDEX);
      }
      parsed[i] := rest[i];
      Shrinks(rest, i);
      rest := rest - {i};
    }
    var bytes := parsed[..];
    IsTheBuffer(bytes, m);
    r := Success(bytes);
  }

  lemma IsTheBuffer(bytes: seq<Byte>, m: map<nat, Byte>)
    requires |bytes| == |m| && forall i :: i in m ==> i < |m| && bytes[i] == m[i]
    ensures m.Keys == Below(|m|) && IndexMap(bytes) == m
    ensures forall other :: IndexMap(other) == m ==> other == bytes
  {
    PigeonHole(m);
    forall other | IndexMap(other) == m ensures other == bytes {
      IndexMapIsInjective(other, bytes);
    }
  }

  lemma Shrinks(m: map<nat, Byte>, i: nat)
    requires i in m
    ensures |m - {i}| < |m|
  {
    assert (m - {i}).Keys == m.Keys - {i};
    assert |m.Keys| == |m| && |(m - {i}).Keys| == |m - {i}|;
  }

  /** A call as it crosses JSON. */
  function ToJson(call: CallFnArgs): CallJson {
    CallJson(call.contract, call.name, seq(|call.args|, i requires 0 <= i < |call.args| => IndexMap(call.args[i])),
             call.sender)
  }

  lemma NoCallReadsSo(json: CallJson, k: nat)
    requires k < |json.argsMaps| && !IsBuffer(json.argsMaps[k])
    ensures forall call :: ToJson(call) != json
  {
    forall call ensures ToJson(call) != json {
      var maps := ToJson(call).argsMaps;
      if |maps| == |json.argsMaps| {
        assert maps[k] == IndexMap(call.args[k]);
        assert maps[k] != json.argsMaps[k];
      }
    }
  }

  /** Reads back every call that crossed JSON, and accepts nothing else. */
  method FromJsonArgs(json: CallJson) returns (r: Result<CallFnArgs, string>)
    ensures r.Success? <==> forall k :: 0 <= k < |json.argsMaps| ==> IsBuffer(json.argsMaps[k])
    ensures r.Success? ==> ToJson(r.value) == json
    ensures forall call :: ToJson(call) == json ==> r == Success(call)
  {
    var args: seq<seq<Byte>> := [];
    for k := 0 to |json.argsMaps|
      invariant |args| == k
      invariant forall j :: 0 <= j < k ==> IndexMap(args[j]) == json.argsMaps[j]
    {
      IsBufferIff(json.argsMaps[k]);
      var arg := ParseArg(json.argsMaps[k]);
      if arg.Failure? {
        NoCallReadsSo(json, k);
        return Failure(arg.error);
      }
      args := args + [arg.value];
    }
    var parsed := CallFnArgs(json.contract, json.name, args, json.sender);
    assert ToJson(parsed) == json;
    forall call | ToJson(call) == json ensures call == parsed {
      forall k | 0 <= k < |args| ensures call.args[k] == args[k] {
        assert IndexMap(call.args[k]) == json.argsMaps[k];
        IndexMapIsInjective(call.args[k], args[k]);
      }
      assert |call.args| == |args|;
      assert call.args == args;
    }
    r := Success(parsed);
  }
}
