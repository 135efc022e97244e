/** `MetaDataService`: the cache, shared by the on-premise engines, that maps
    component ids to default profile ids. Each engine is the sequence of
    its components; a component's default profile is its id, or None when
    the component has no default profile. */
module MetaDataServices {
  import opened Common

  datatype Component = Component(componentId: byte, defaultProfile: Option<uint32>)

  /** `engines.SelectMany(e => e.Components)`: every component of every
      engine, engine by engine. */
  function AllComponents(engines: seq<seq<Component>>): (r: seq<Component>)
    ensures forall c :: c in r <==> exists e :: e in engines && c in e
  {
    if engines == [] then []
    else
      var rest := AllComponents(engines[1..]);
      assert forall e :: e in engines <==> e == engines[0] || e in engines[1..];
      engines[0] + rest
  }

  /** `.Where(c => c.ComponentId == cid)`. */
  function Matches(cs: seq<Component>, cid: byte): (r: seq<Component>)
    ensures forall c :: c in r <==> c in cs && c.componentId == cid
  {
    if cs == [] then []
    else if cs[0].componentId == cid then [cs[0]] + Matches(cs[1..], cid)
    else Matches(cs[1..], cid)
  }

  /** The value `DefaultProfileIdForComponent` computes on a cache miss: the
      default profile of the only component with that id, and null when no
      component or more than one has it. */
  function DefaultProfileFor(engines: seq<seq<Component>>, cid: byte): Option<uint32> {
    var matches := Matches(AllComponents(engines), cid);
    if |matches| == 1 then matches[0].defaultProfile else None
  }

  /** Exactly one position of `cs` holds a component with id `cid`. */
  ghost predicate UniqueAt(cs: seq<Component>, cid: byte, j: int) {
    0 <= j < |cs| && cs[j].componentId == cid &&
    forall k | 0 <= k < |cs| && cs[k].componentId == cid :: k == j
  }

  /** No component of `cs` has id `cid`: nothing matches. */
  lemma {:induction false} NoMatches(cs: seq<Component>, cid: byte)
    requires forall k | 0 <= k < |cs| :: cs[k].componentId != cid
    ensures Matches(cs, cid) == []
  {
    if cs != [] {
      assert forall k | 0 <= k < |cs| - 1 :: cs[1..][k] == cs[k + 1];
      NoMatches(cs[1..], cid);
    }
  }

  /** When one position holds `cid`, the matches are that component alone. */
  lemma {:induction false} MatchesOfUnique(cs: seq<Component>, cid: byte, j: int)
    requires UniqueAt(cs, cid, j)
    ensures Matches(cs, cid) == [cs[j]]
  {
    var tail := cs[1..];
    if j == 0 {
      forall k | 0 <= k < |tail|
        ensures tail[k].componentId != cid
      {
        assert cs[k + 1] == tail[k];
      }
      NoMatches(tail, cid);
    } else {
      assert UniqueAt(tail, cid, j - 1) by {
        forall k | 0 <= k < |tail| && tail[k].componentId == cid
          ensures k == j - 1
        {
          assert cs[k + 1] == tail[k];
        }
      }
      MatchesOfUnique(tail, cid, j - 1);
    }
  }

  /** A single match comes from a position that alone holds `cid`. */
  lemma {:induction false} UniqueOfSingle(cs: seq<Component>, cid: byte) returns (j: int)
    requires |Matches(cs, cid)| == 1
    ensures UniqueAt(cs, cid, j)
  {
    var tail := cs[1..];
    if cs[0].componentId == cid {
      assert Matches(tail, cid) == [];
      assert forall k | 0 <= k < |tail| :: tail[k].componentId != cid;
      assert forall k | 0 < k < |cs| :: cs[k] == tail[k - 1];
      j := 0;
    } else {
      var t := UniqueOfSingle(tail, cid);
      j := t + 1;
      forall k | 0 <= k < |cs| && cs[k].componentId == cid
        ensures k == j
      {
        assert k > 0 && tail[k - 1] == cs[k];
      }
    }
  }

  /** The matches of `cid` are a single element exactly when one position
      holds that id, and that element is the component there. */
  lemma SingleMatchIffUnique(cs: seq<Component>, cid: byte)
    ensures |Matches(cs, cid)| == 1 <==> exists j :: UniqueAt(cs, cid, j)
    ensures forall j | UniqueAt(cs, cid, j) :: Matches(cs, cid) == [cs[j]]
  {
    if |Matches(cs, cid)| == 1 {
      var j := UniqueOfSingle(cs, cid);
    }
    forall j | UniqueAt(cs, cid, j)
      ensures Matches(cs, cid) == [cs[j]]
    {
      MatchesOfUnique(cs, cid, j);
    }
  }

  /** The answer for `cid` is a profile id exactly when one component across
      all engines has that id and has a default profile with that id. */
  lemma DefaultProfileForSome(engines: seq<seq<Component>>, cid: byte, p: uint32)
    ensures DefaultProfileFor(engines, cid) == Some(p) <==>
      exists j :: UniqueAt(AllComponents(engines), cid, j) && AllComponents(engines)[j].defaultProfile == Some(p)
  {
    var cs := AllComponents(engines);
    SingleMatchIffUnique(cs, cid);
    if DefaultProfileFor(engines, cid) == Some(p) {
      var j := UniqueOfSingle(cs, cid);
      assert cs[j].defaultProfile == Some(p);
    }
  }

  /** The answer for `cid` is null when no component has that id, when two
      components at different positions have it, or when the only one has no
      default profile. */
  lemma DefaultProfileForNone(engines: seq<seq<Component>>, cid: byte)
    ensures (forall c | c in AllComponents(engines) :: c.componentId != cid) ==> DefaultProfileFor(engines, cid) == None
    ensures (exists j, k :: 0 <= j < k < |AllComponents(engines)| &&
               AllComponents(engines)[j].componentId == cid && AllComponents(engines)[k].componentId == cid)
            ==> DefaultProfileFor(engines, cid) == None
    ensures forall j | UniqueAt(AllComponents(engines), cid, j) && AllComponents(engines)[j].defaultProfile == None ::
              DefaultProfileFor(engines, cid) == None
  {
    var cs := AllComponents(engines);
    SingleMatchIffUnique(cs, cid);
    if forall c | c in cs :: c.componentId != cid {
      NoMatches(cs, cid);
    }
  }

  /** The component ids of all engines, in the order the populate pass visits
      them. */
  function ComponentIds(engines: seq<seq<Component>>): (r: seq<byte>)
    ensures |r| == |AllComponents(engines)|
    ensures forall i | 0 <= i < |r| :: r[i] == AllComponents(engines)[i].componentId
    ensures forall c | c in AllComponents(engines) :: c.componentId in r
    ensures forall cid | cid in r :: Matches(AllComponents(engines), cid) != []
  {
    var cs := AllComponents(engines);
    var r := seq(|cs|, i requires 0 <= i < |cs| => cs[i].componentId);
    assert forall cid | cid in r :: Matches(cs, cid) != [] by {
      forall cid | cid in r
        ensures Matches(cs, cid) != []
      {
        var i :| 0 <= i < |r| && r[i] == cid;
        assert cs[i] in Matches(cs, cid);
      }
    }
    r
  }

  class MetaDataService {
    /** The engines' current components: reloaded when an engine refreshes. */
    var engines: seq<seq<Component>>
    /** `_componentIdToDefaultProfileId`. */
    var componentIdToDefaultProfileId: map<byte, Option<uint32>>
    /** `_profileIdToComponentId`, which nothing fills now that the lookup by
        profile is gone, but which a refresh clears. */
    var profileIdToComponentId: map<uint32, Option<byte>>
    /** `_setAllDefaults`. */
    var setAllDefaults: bool

    /** Every cached answer is the answer for the engines' current data. */
    ghost predicate Memoized()
      reads this
    {
      forall cid | cid in componentIdToDefaultProfileId ::
        componentIdToDefaultProfileId[cid] == DefaultProfileFor(engines, cid)
    }

    /** Once the populate pass has run, every component id is cached. */
    ghost predicate Complete()
      reads this
    {
      setAllDefaults ==> forall cid | cid in ComponentIds(engines) :: cid in componentIdToDefaultProfileId
    }

    ghost predicate Valid()
      reads this
    {
      Memoized() && Complete()
    }

    constructor (engines: seq<seq<Component>>)
      ensures Valid()
      ensures this.engines == engines
      ensures componentIdToDefaultProfileId == map[] && profileIdToComponentId == map[] && !setAllDefaults
    {
      this.engines := engines;
      componentIdToDefaultProfileId := map[];
      profileIdToComponentId := map[];
      setAllDefaults := false;
    }

    /** `DefaultProfileIdForComponent(componentId)`: the cached answer when
        there is one, otherwise the computed answer, which is then cached. */
    method DefaultProfileIdForComponent(componentId: byte) returns (r: Option<uint32>)
      requires Memoized()
      modifies this`componentIdToDefaultProfileId
      ensures Memoized()
      ensures r == DefaultProfileFor(engines, componentId)
      ensures componentId in old(componentIdToDefaultProfileId) ==>
        r == old(componentIdToDefaultProfileId[componentId]) &&
        componentIdToDefaultProfileId == old(componentIdToDefaultProfileId)
      ensures componentIdToDefaultProfileId == old(componentIdToDefaultProfileId)[componentId := r]
    {
      if componentId in componentIdToDefaultProfileId {
        r := componentIdToDefaultProfileId[componentId];
        return;
      }
      r := DefaultProfileFor(engines, componentId);
      componentIdToDefaultProfileId := componentIdToDefaultProfileId[componentId := r];
    }

    /** The populate pass of `DefaultProfilesIds`: looks up each id in turn,
        caching every answer. */
    method LookUpAll(ids: seq<byte>)
      requires Memoized()
      modifies this`componentIdToDefaultProfileId
      ensures Memoized()
      ensures forall cid :: cid in componentIdToDefaultProfileId <==>
        cid in old(componentIdToDefaultProfileId) || cid in ids
    {
      var i := 0;
      while i < |ids|
        invariant 0 <= i <= |ids|
        invariant Memoized()
        invariant forall cid :: cid in componentIdToDefaultProfileId <==>
          cid in old(componentIdToDefaultProfileId) || cid in ids[..i]
      {
        var _ := DefaultProfileIdForComponent(ids[i]);
        assert ids[..i + 1] == ids[..i] + [ids[i]];
        i := i + 1;
      }
      assert ids[..i] == ids;
    }

    /** `DefaultProfilesIds()`: on the first call since the last refresh,
        looks up every component id of every engine; then returns the cache,
        which holds the answer for every component id. */
    method DefaultProfilesIds() returns (m: map<byte, Option<uint32>>)
      requires Valid()
      modifies this`componentIdToDefaultProfileId, this`setAllDefaults
      ensures Valid() && setAllDefaults
      ensures m == componentIdToDefaultProfileId
      ensures forall cid | cid in ComponentIds(engines) :: cid in m
      ensures forall cid | cid in m :: m[cid] == DefaultProfileFor(engines, cid)
      ensures old(setAllDefaults) ==> componentIdToDefaultProfileId == old(componentIdToDefaultProfileId)
      ensures forall cid :: cid in componentIdToDefaultProfileId <==>
        cid in old(componentIdToDefaultProfileId) || (!old(setAllDefaults) && cid in ComponentIds(engines))
    {
      if !setAllDefaults {
        setAllDefaults := true;
        LookUpAll(ComponentIds(engines));
      }
      m := componentIdToDefaultProfileId;
    }

    /** `ClearData()`: empties both caches and re-arms the populate pass. */
    method ClearData()
      modifies this`componentIdToDefaultProfileId, this`profileIdToComponentId, this`setAllDefaults
      ensures Valid()
      ensures componentIdToDefaultProfileId == map[] && profileIdToComponentId == map[] && !setAllDefaults
    {
      componentIdToDefaultProfileId := map[];
      profileIdToComponentId := map[];
      setAllDefaults := false;
    }

    /** An engine reloads its data and raises `RefreshCompleted`, whose
        handler clears the caches; later answers reflect the new data. */
    method RefreshCompleted(reloaded: seq<seq<Component>>)
      modifies this
      ensures Valid()
      ensures engines == reloaded
      ensures componentIdToDefaultProfileId == map[] && profileIdToComponentId == map[] && !setAllDefaults
    {
      engines := reloaded;
      ClearData();
    }
  }

  /** `new MetaDataService(engines)`: a null engines array throws; otherwise
      the service starts with empty caches. */
  method NewMetaDataService(engines: Option<seq<seq<Component>>>) returns (r: Result<MetaDataService, Error>)
    ensures engines == None ==> r == Failure(ArgumentNullException("engines"))
    ensures engines.Some? ==>
      r.Success? && fresh(r.value) && r.value.Valid() && r.value.engines == engines.value &&
      r.value.componentIdToDefaultProfileId == map[] && r.value.profileIdToComponentId == map[] &&
      !r.value.setAllDefaults
  {
    if engines == None {
      return Failure(ArgumentNullException("engines"));
    }
    var service := new MetaDataService(engines.value);
    r := Success(service);
  }
}
