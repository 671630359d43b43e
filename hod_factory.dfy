/**
  The bookkeeping by which halotools/empirical_models/hod_factory.py builds a
  composite HOD model out of component models: consolidating the halo
  property keys of every feature, ordering the galaxy types by occupation
  bound, merging the halo profile function and table dictionaries with the
  first galaxy type winning, validating override tables, and collecting the
  publications.

  A model blueprint maps each galaxy type to its features; every feature has a
  dictionary of halo property keys and a list of publications, the
  'occupation' feature an occupation bound and the 'profile' feature a halo
  profile model with a function dictionary and a table dictionary. Python
  dictionaries are iterated in an order of their own; the model takes that
  order as given (Blueprint.galTypes, the item list of an override dictionary).
*/
module HodFactory {
  import opened Wrappers
  import opened Collections
  import ArrayUtils

  const PrimHalopropKey: string := "prim_haloprop_key"
  const SecHalopropKey: string := "sec_haloprop_key"
  const HaloBoundaryKey: string := "halo_boundary"

  /** The KeyError and TypeError cases of the composite-model construction. */
  datatype HodError =
    | NoPrimHaloprop
    | DistinctPrimHaloprop
    | NoHaloBoundary
    | DistinctHaloBoundary
    | DistinctSecHaloprop
    | OverrideNotTuple(key: string)
    | OverrideWrongLength(key: string)
      /** The TypeError of formatting six values into a one-placeholder warning. */
    | WarningFormatError

  /** A value handed in an override dictionary: only its type and length are examined. */
  datatype PyValue = Tuple(elems: seq<real>) | NonTuple(typeName: string)

  /** A halo profile parameter function; callables are compared by identity only. */
  datatype ProfFunc = ProfFunc(name: string)

  /** What every component model carries. */
  datatype Component = Component(haloprops: map<string, string>, publications: seq<string>)

  datatype HaloProfModel = HaloProfModel(
    profFuncs: map<string, ProfFunc>,
    profParamTables: map<string, PyValue>)

  /** The features of one galaxy type: `model_blueprint[gal_type]`. */
  datatype GalTypeModels = GalTypeModels(
    occupation: Component,
    occupationBound: int,
    profile: Component,
    haloProfModel: HaloProfModel,
    others: seq<Component>)
  {
    /** `model_blueprint[gal_type].values()` */
    function Features(): seq<Component>
    {
      [occupation, profile] + others
    }
  }

  /** A model blueprint: a dictionary from galaxy type to features, with its key order. */
  datatype Blueprint = Blueprint(galTypes: seq<string>, models: map<string, GalTypeModels>)
  {
    predicate Valid()
    {
      Distinct(galTypes) && models.Keys == Elems(galTypes)
    }
  }

  // ---------------------------------------------------------------------------
  // return_haloprop_dict

  /** The features of the given galaxy types, galaxy type by galaxy type. */
  function FeaturesOf(bp: Blueprint, gs: seq<string>): seq<Component>
    requires forall g :: g in gs ==> g in bp.models
  {
    if gs == [] then []
    else FeaturesOf(bp, gs[..|gs| - 1]) + bp.models[gs[|gs| - 1]].Features()
  }

  function AllFeatures(bp: Blueprint): seq<Component>
    requires bp.Valid()
  {
    FeaturesOf(bp, bp.galTypes)
  }

  /** The distinct values the features give for key. */
  function Supplied(feats: seq<Component>, key: string): set<string>
  {
    set f | f in feats && key in f.haloprops :: f.haloprops[key]
  }

  predicate SomeSupplies(feats: seq<Component>, key: string)
  {
    exists f :: f in feats && key in f.haloprops
  }

  predicate AllAgree(feats: seq<Component>, key: string)
  {
    forall f, h :: f in feats && h in feats && key in f.haloprops && key in h.haloprops ==>
      f.haloprops[key] == h.haloprops[key]
  }

  /** Some feature gives key, and every feature that gives it gives the same value. */
  predicate UniqueChoice(feats: seq<Component>, key: string)
  {
    SomeSupplies(feats, key) && AllAgree(feats, key)
  }

  /** The result of `return_haloprop_dict`, stated over the sets of supplied values. */
  ghost function HalopropKeyDict(bp: Blueprint): Result<map<string, string>, HodError>
    requires bp.Valid()
  {
    var feats := AllFeatures(bp);
    var prims := Supplied(feats, PrimHalopropKey);
    var bounds := Supplied(feats, HaloBoundaryKey);
    var secs := Supplied(feats, SecHalopropKey);
    if |prims| == 0 then Failure(NoPrimHaloprop)
    else if |prims| > 1 then Failure(DistinctPrimHaloprop)
    else if |bounds| == 0 then Failure(NoHaloBoundary)
    else if |bounds| > 1 then Failure(DistinctHaloBoundary)
    else if |secs| > 1 then Failure(DistinctSecHaloprop)
    else
      var p :| p in prims;
      var b :| b in bounds;
      var d := map[PrimHalopropKey := p, HaloBoundaryKey := b];
      if secs == {} then Success(d)
      else
        var s :| s in secs;
        Success(d[SecHalopropKey := s])
  }

  lemma SuppliedCard(feats: seq<Component>, key: string)
    ensures |Supplied(feats, key)| == 0 <==> !SomeSupplies(feats, key)
    ensures |Supplied(feats, key)| <= 1 <==> AllAgree(feats, key)
  {
    var s := Supplied(feats, key);
    AtMostOne(s);
    if SomeSupplies(feats, key) {
      var f :| f in feats && key in f.haloprops;
      assert f.haloprops[key] in s;
    }
    if |s| <= 1 {
      forall f, h | f in feats && h in feats && key in f.haloprops && key in h.haloprops
        ensures f.haloprops[key] == h.haloprops[key]
      {
        assert f.haloprops[key] in s && h.haloprops[key] in s;
      }
    }
  }

  /** Which error return_haloprop_dict raises, in terms of what the features give. */
  lemma HalopropKeyDictErrors(bp: Blueprint)
    requires bp.Valid()
    ensures var feats := AllFeatures(bp);
      var r := HalopropKeyDict(bp);
      (r == Failure(NoPrimHaloprop) <==> !SomeSupplies(feats, PrimHalopropKey)) &&
      (r == Failure(DistinctPrimHaloprop) <==>
        SomeSupplies(feats, PrimHalopropKey) && !AllAgree(feats, PrimHalopropKey)) &&
      (r == Failure(NoHaloBoundary) <==>
        UniqueChoice(feats, PrimHalopropKey) && !SomeSupplies(feats, HaloBoundaryKey)) &&
      (r == Failure(DistinctHaloBoundary) <==>
        UniqueChoice(feats, PrimHalopropKey) && SomeSupplies(feats, HaloBoundaryKey) &&
        !AllAgree(feats, HaloBoundaryKey)) &&
      (r == Failure(DistinctSecHaloprop) <==>
        UniqueChoice(feats, PrimHalopropKey) && UniqueChoice(feats, HaloBoundaryKey) &&
        !AllAgree(feats, SecHalopropKey)) &&
      (r.Success? <==>
        UniqueChoice(feats, PrimHalopropKey) && UniqueChoice(feats, HaloBoundaryKey) &&
        AllAgree(feats, SecHalopropKey))
  {
    var feats := AllFeatures(bp);
    SuppliedCard(feats, PrimHalopropKey);
    SuppliedCard(feats, HaloBoundaryKey);
    SuppliedCard(feats, SecHalopropKey);
  }

  /**
    On success the output holds the primary key and the halo boundary, and the
    secondary key exactly when some feature gives one; each equals what every
    feature giving that key gives.
  */
  lemma HalopropKeyDictValues(bp: Blueprint)
    requires bp.Valid()
    ensures var feats := AllFeatures(bp);
      var r := HalopropKeyDict(bp);
      r.Success? ==>
        PrimHalopropKey in r.value && HaloBoundaryKey in r.value &&
        (SecHalopropKey in r.value <==> SomeSupplies(feats, SecHalopropKey)) &&
        r.value.Keys <= {PrimHalopropKey, HaloBoundaryKey, SecHalopropKey} &&
        forall f, key ::
          (f in feats && key in f.haloprops &&
           (key == PrimHalopropKey || key == HaloBoundaryKey || key == SecHalopropKey)) ==>
          key in r.value && r.value[key] == f.haloprops[key]
  {
    var feats := AllFeatures(bp);
    var r := HalopropKeyDict(bp);
    SuppliedCard(feats, PrimHalopropKey);
    SuppliedCard(feats, HaloBoundaryKey);
    SuppliedCard(feats, SecHalopropKey);
    if r.Success? {
      forall f, key | f in feats && key in f.haloprops &&
          (key == PrimHalopropKey || key == HaloBoundaryKey || key == SecHalopropKey)
        ensures key in r.value && r.value[key] == f.haloprops[key]
      {
        var s := Supplied(feats, key);
        assert f.haloprops[key] in s;
        AtMostOne(s);
      }
    }
  }

  lemma SuppliedSnoc(feats: seq<Component>, f: Component, key: string)
    ensures Supplied(feats + [f], key) ==
      Supplied(feats, key) + (if key in f.haloprops then {f.haloprops[key]} else {})
  {
    assert forall h :: h in feats + [f] <==> h in feats || h == f;
  }

  /** Appending the value the next feature gives for key, if any, keeps the list's set equal to the supplied set. */
  lemma SuppliedStep(done: seq<Component>, features: seq<Component>, j: nat, key: string, list: seq<string>)
    requires j < |features| && Elems(list) == Supplied(done + features[..j], key)
    ensures var f := features[j];
      Elems(if key in f.haloprops then list + [f.haloprops[key]] else list) ==
        Supplied(done + features[..j + 1], key)
  {
    var f := features[j];
    assert done + features[..j + 1] == (done + features[..j]) + [f];
    SuppliedSnoc(done + features[..j], f, key);
    if key in f.haloprops {
      ElemsAppend(list, [f.haloprops[key]]);
    }
  }

  lemma FeaturesOfSnoc(bp: Blueprint, gs: seq<string>, i: nat)
    requires i < |gs| && forall g :: g in gs ==> g in bp.models
    ensures FeaturesOf(bp, gs[..i + 1]) == FeaturesOf(bp, gs[..i]) + bp.models[gs[i]].Features()
  {
    assert gs[..i + 1][..i] == gs[..i];
  }

  /** The loops of `return_haloprop_dict`: every feature's choices, galaxy type by galaxy type. */
  method CollectHaloprops(bp: Blueprint)
    returns (primHalopropList: seq<string>, secHalopropList: seq<string>, haloBoundaryList: seq<string>)
    requires bp.Valid()
    ensures Elems(primHalopropList) == Supplied(AllFeatures(bp), PrimHalopropKey)
    ensures Elems(secHalopropList) == Supplied(AllFeatures(bp), SecHalopropKey)
    ensures Elems(haloBoundaryList) == Supplied(AllFeatures(bp), HaloBoundaryKey)
  {
    primHalopropList, secHalopropList, haloBoundaryList := [], [], [];
    for i := 0 to |bp.galTypes|
      invariant Elems(primHalopropList) == Supplied(FeaturesOf(bp, bp.galTypes[..i]), PrimHalopropKey)
      invariant Elems(secHalopropList) == Supplied(FeaturesOf(bp, bp.galTypes[..i]), SecHalopropKey)
      invariant Elems(haloBoundaryList) == Supplied(FeaturesOf(bp, bp.galTypes[..i]), HaloBoundaryKey)
    {
      ghost var done := FeaturesOf(bp, bp.galTypes[..i]);
      var features := bp.models[bp.galTypes[i]].Features();
      for j := 0 to |features|
        invariant Elems(primHalopropList) == Supplied(done + features[..j], PrimHalopropKey)
        invariant Elems(secHalopropList) == Supplied(done + features[..j], SecHalopropKey)
        invariant Elems(haloBoundaryList) == Supplied(done + features[..j], HaloBoundaryKey)
      {
        var feature := features[j];
        SuppliedStep(done, features, j, PrimHalopropKey, primHalopropList);
        SuppliedStep(done, features, j, SecHalopropKey, secHalopropList);
        SuppliedStep(done, features, j, HaloBoundaryKey, haloBoundaryList);
        if PrimHalopropKey in feature.haloprops {
          primHalopropList := primHalopropList + [feature.haloprops[PrimHalopropKey]];
        }
        if SecHalopropKey in feature.haloprops {
          secHalopropList := secHalopropList + [feature.haloprops[SecHalopropKey]];
        }
        if HaloBoundaryKey in feature.haloprops {
          haloBoundaryList := haloBoundaryList + [feature.haloprops[HaloBoundaryKey]];
        }
      }
      assert features[..|features|] == features;
      FeaturesOfSnoc(bp, bp.galTypes, i);
    }
    assert bp.galTypes[..|bp.galTypes|] == bp.galTypes;
  }

  /** `return_haloprop_dict(model_blueprint)`: collect every feature's choices, then check them. */
  method ReturnHalopropDict(bp: Blueprint) returns (r: Result<map<string, string>, HodError>)
    requires bp.Valid()
    ensures r == HalopropKeyDict(bp)
  {
    var primHalopropList, secHalopropList, haloBoundaryList := CollectHaloprops(bp);
    var prims := Elems(primHalopropList);
    var bounds := Elems(haloBoundaryList);
    var secs := Elems(secHalopropList);
    if |prims| == 0 {
      return Failure(NoPrimHaloprop);
    } else if |prims| > 1 {
      return Failure(DistinctPrimHaloprop);
    }
    if |bounds| == 0 {
      return Failure(NoHaloBoundary);
    } else if |bounds| > 1 {
      return Failure(DistinctHaloBoundary);
    }
    if |secs| > 1 {
      return Failure(DistinctSecHaloprop);
    }
    AtMostOne(prims);
    AtMostOne(bounds);
    AtMostOne(secs);
    assert primHalopropList[0] in prims && haloBoundaryList[0] in bounds;
    var outputDict := map[PrimHalopropKey := primHalopropList[0], HaloBoundaryKey := haloBoundaryList[0]];
    if secHalopropList != [] {
      assert secHalopropList[0] in secs;
      outputDict := outputDict[SecHalopropKey := secHalopropList[0]];
    }
    r := Success(outputDict);
  }

  // ---------------------------------------------------------------------------
  // _set_gal_types

  /** The occupation bound of each of gs, in order: `occupation_bounds`. */
  function OccupationBounds(bp: Blueprint, gs: seq<string>): seq<int>
    requires forall g :: g in gs ==> g in bp.models
  {
    seq(|gs|, i requires 0 <= i < |gs| => bp.models[gs[i]].occupationBound)
  }

  /** `list(np.array(gal_types)[np.argsort(occupation_bounds)])` */
  function GalTypesByBound(bp: Blueprint): seq<string>
    requires bp.Valid()
  {
    ArrayUtils.Gather(bp.galTypes, ArrayUtils.Argsort(OccupationBounds(bp, bp.galTypes)))
  }

  /** The galaxy types in non-decreasing order of occupation bound, each exactly once. */
  lemma GalTypesByBoundOrders(bp: Blueprint)
    requires bp.Valid()
    ensures var gs := GalTypesByBound(bp);
      |gs| == |bp.galTypes| && Distinct(gs) && Elems(gs) == Elems(bp.galTypes) &&
      (forall g :: g in gs ==> g in bp.models) &&
      forall i, j :: 0 <= i < j < |gs| ==>
        bp.models[gs[i]].occupationBound <= bp.models[gs[j]].occupationBound
  {
    var keys := bp.galTypes;
    var bounds := OccupationBounds(bp, keys);
    var p := ArrayUtils.Argsort(bounds);
    var gs := GalTypesByBound(bp);
    ArrayUtils.PermutationIsOnto(p);
    forall g | g in keys ensures g in gs {
      var k :| 0 <= k < |keys| && keys[k] == g;
      assert k in p;
      var pos :| 0 <= pos < |p| && p[pos] == k;
      assert gs[pos] == g;
    }
    forall i, j | 0 <= i < j < |gs| ensures gs[i] != gs[j] {
      assert p[i] != p[j];
    }
  }

  /** `occupation_bound` for the galaxy types gs. */
  function BoundMap(bp: Blueprint, gs: seq<string>): map<string, int>
    requires forall g :: g in gs ==> g in bp.models
  {
    map g | g in gs :: bp.models[g].occupationBound
  }

  lemma BoundMapSnoc(bp: Blueprint, gs: seq<string>, i: nat)
    requires i < |gs| && forall g :: g in gs ==> g in bp.models
    ensures BoundMap(bp, gs[..i + 1]) == BoundMap(bp, gs[..i])[gs[i] := bp.models[gs[i]].occupationBound]
  {
    assert gs[..i + 1] == gs[..i] + [gs[i]];
  }

  lemma BoundMapSameElems(bp: Blueprint, gs: seq<string>, hs: seq<string>)
    requires Elems(gs) == Elems(hs) && forall g :: g in gs ==> g in bp.models
    requires forall g :: g in hs ==> g in bp.models
    ensures BoundMap(bp, gs) == BoundMap(bp, hs)
  {
    assert forall g :: g in gs <==> g in Elems(gs);
    assert forall g :: g in hs <==> g in Elems(hs);
  }

  // ---------------------------------------------------------------------------
  // First-writer-wins merge of the halo profile dictionaries

  /** A merged entry: its value and the galaxy type it was taken from. */
  datatype Entry<V> = Entry(value: V, galType: string)

  /** The entries of d whose keys are in keys. */
  function Restrict<V>(d: map<string, V>, keys: set<string>): map<string, V>
  {
    map k | k in d && k in keys :: d[k]
  }

  /** Adds the entries of d, offered by galaxy type g, under the keys not merged yet. */
  function Absorb<V>(m: map<string, Entry<V>>, g: string, d: map<string, V>): map<string, Entry<V>>
  {
    map k | k in m.Keys + d.Keys :: if k in m then m[k] else Entry(d[k], g)
  }

  /** Merges the dictionaries of the sources in order; the first to offer a key keeps it. */
  function FirstWriterMerge<V>(sources: seq<(string, map<string, V>)>): map<string, Entry<V>>
  {
    if sources == [] then map[]
    else
      var last := sources[|sources| - 1];
      Absorb(FirstWriterMerge(sources[..|sources| - 1]), last.0, last.1)
  }

  /** The merged dictionary itself. */
  function Values<V>(m: map<string, Entry<V>>): map<string, V>
  {
    map k | k in m :: m[k].value
  }

  /** The galaxy type each merged key came from: `tmp_key_correspondence`. */
  function Owners<V>(m: map<string, Entry<V>>): map<string, string>
  {
    map k | k in m :: m[k].galType
  }

  /** The source index that first offers k. */
  predicate FirstOffer<V>(sources: seq<(string, map<string, V>)>, k: string, i: int)
  {
    0 <= i < |sources| && k in sources[i].1 && forall j :: 0 <= j < i ==> k !in sources[j].1
  }

  lemma AbsorbFacts<V>(m: map<string, Entry<V>>, g: string, d: map<string, V>)
    ensures forall k :: k in Absorb(m, g, d) <==> k in m || k in d
    ensures forall k :: k in m ==> Absorb(m, g, d)[k] == m[k]
    ensures forall k :: k !in m && k in d ==> Absorb(m, g, d)[k] == Entry(d[k], g)
  {
  }

  /** A key is merged exactly when some source offers it. */
  lemma {:induction false} FirstWriterMergeKeys<V>(sources: seq<(string, map<string, V>)>)
    ensures forall k :: k in FirstWriterMerge(sources) <==> exists i :: 0 <= i < |sources| && k in sources[i].1
  {
    if sources != [] {
      var n := |sources|;
      var init := sources[..n - 1];
      var last := sources[n - 1];
      FirstWriterMergeKeys(init);
      AbsorbFacts(FirstWriterMerge(init), last.0, last.1);
      assert forall i :: 0 <= i < n - 1 ==> init[i] == sources[i];
      forall k ensures k in FirstWriterMerge(sources) <==> exists i :: 0 <= i < n && k in sources[i].1 {
        if k in last.1 {
          assert k in sources[n - 1].1;
        }
      }
    }
  }

  /**
    A merged key maps to the value, and the galaxy type, of the first source
    that offers it: later sources never overwrite.
  */
  lemma {:induction false} FirstWriterMergeWins<V>(sources: seq<(string, map<string, V>)>)
    ensures forall k, i :: FirstOffer(sources, k, i) ==>
      k in FirstWriterMerge(sources) && FirstWriterMerge(sources)[k] == Entry(sources[i].1[k], sources[i].0)
  {
    if sources != [] {
      var n := |sources|;
      var init := sources[..n - 1];
      var last := sources[n - 1];
      var m0 := FirstWriterMerge(init);
      FirstWriterMergeWins(init);
      FirstWriterMergeKeys(init);
      AbsorbFacts(m0, last.0, last.1);
      assert forall i :: 0 <= i < n - 1 ==> init[i] == sources[i];
      forall k, i | FirstOffer(sources, k, i)
        ensures k in FirstWriterMerge(sources) && FirstWriterMerge(sources)[k] == Entry(sources[i].1[k], sources[i].0)
      {
        if i < n - 1 {
          assert FirstOffer(init, k, i);
        } else {
          assert forall j :: 0 <= j < n - 1 ==> k !in init[j].1;
          assert k !in m0;
        }
      }
    }
  }

  lemma AbsorbStep<V>(before: map<string, Entry<V>>, g: string, d: map<string, V>, done: set<string>, key: string)
    requires key in d && key !in done
    ensures key in Absorb(before, g, Restrict(d, done)) <==> key in before
    ensures var cur := Absorb(before, g, Restrict(d, done));
      Absorb(before, g, Restrict(d, done + {key})) ==
        if key in cur then cur else cur[key := Entry(d[key], g)]
  {
    var cur := Absorb(before, g, Restrict(d, done));
    var next := Absorb(before, g, Restrict(d, done + {key}));
    AbsorbFacts(before, g, Restrict(d, done));
    AbsorbFacts(before, g, Restrict(d, done + {key}));
    if key in cur {
      assert next.Keys == cur.Keys;
    } else {
      assert next.Keys == cur.Keys + {key};
    }
  }

  lemma AbsorbStart<V>(m: map<string, Entry<V>>, g: string, d: map<string, V>)
    ensures Absorb(m, g, Restrict(d, {})) == m
  {
    assert Restrict(d, {}) == map[];
    AbsorbFacts(m, g, map[]);
  }

  lemma AbsorbEnd<V>(m: map<string, Entry<V>>, g: string, d: map<string, V>, done: set<string>)
    requires done == d.Keys
    ensures Absorb(m, g, Restrict(d, done)) == Absorb(m, g, d)
  {
    assert Restrict(d, done) == d;
  }

  /** The inner loop of the merge: one galaxy type's dictionary, key by key. */
  method AbsorbKeys<V>(m0: map<string, Entry<V>>, galType: string, d: map<string, V>)
    returns (m: map<string, Entry<V>>)
    ensures m == Absorb(m0, galType, d)
  {
    m := m0;
    var remaining := d.Keys;
    ghost var done: set<string> := {};
    AbsorbStart(m0, galType, d);
    while remaining != {}
      invariant remaining !! done && remaining + done == d.Keys
      invariant m == Absorb(m0, galType, Restrict(d, done))
      decreases |remaining|
    {
      var key :| key in remaining;
      AbsorbStep(m0, galType, d, done, key);
      if key !in m {
        m := m[key := Entry(d[key], galType)];
      }
      remaining := remaining - {key};
      done := done + {key};
    }
    AbsorbEnd(m0, galType, d, done);
  }

  /** The merge loop of `_set_halo_prof_func_dict` and `set_prof_param_table_dict`. */
  method MergeFirstWriter<V>(sources: seq<(string, map<string, V>)>) returns (m: map<string, Entry<V>>)
    ensures m == FirstWriterMerge(sources)
  {
    m := map[];
    for i := 0 to |sources|
      invariant m == FirstWriterMerge(sources[..i])
    {
      assert sources[..i + 1][..i] == sources[..i];
      m := AbsorbKeys(m, sources[i].0, sources[i].1);
    }
    assert sources[..|sources|] == sources;
  }

  /** The halo profile function dictionaries of gs, in order. */
  function ProfFuncSources(bp: Blueprint, gs: seq<string>): seq<(string, map<string, ProfFunc>)>
    requires forall g :: g in gs ==> g in bp.models
  {
    seq(|gs|, i requires 0 <= i < |gs| => (gs[i], bp.models[gs[i]].haloProfModel.profFuncs))
  }

  /** The profile parameter table dictionaries of gs, in order. */
  function TableSources(bp: Blueprint, gs: seq<string>): seq<(string, map<string, PyValue>)>
    requires forall g :: g in gs ==> g in bp.models
  {
    seq(|gs|, i requires 0 <= i < |gs| => (gs[i], bp.models[gs[i]].haloProfModel.profParamTables))
  }

  // ---------------------------------------------------------------------------
  // The merge as written: its warning raises

  /**
    The merge loops of lines 181-200 and 227-248 as the source has them. The
    warning for a repeated key is built from string literals on separate
    statements, so `msg` keeps only the first line, with one `%s`; formatting
    the six values into it raises TypeError at the first repeated key.
  */
  function MergeAsWritten<V>(sources: seq<(string, map<string, V>)>): Result<map<string, Entry<V>>, HodError>
  {
    if sources == [] then Success(map[])
    else
      match MergeAsWritten(sources[..|sources| - 1])
      case Failure(e) => Failure(e)
      case Success(m) =>
        var last := sources[|sources| - 1];
        if exists k :: k in last.1 && k in m then Failure(WarningFormatError)
        else Success(Absorb(m, last.0, last.1))
  }

  /** No two sources offer the same key. */
  predicate KeysDisjoint<V>(sources: seq<(string, map<string, V>)>)
  {
    forall i, j, k :: 0 <= i < j < |sources| && k in sources[i].1 ==> k !in sources[j].1
  }

  /** As written, the merge succeeds exactly when no key is offered twice. */
  lemma {:induction false} MergeAsWrittenFailsOnSharedKey<V>(sources: seq<(string, map<string, V>)>)
    ensures MergeAsWritten(sources).Success? <==> KeysDisjoint(sources)
    ensures MergeAsWritten(sources).Success? ==> MergeAsWritten(sources).value == FirstWriterMerge(sources)
    ensures MergeAsWritten(sources).Failure? ==> MergeAsWritten(sources).error == WarningFormatError
  {
    if sources != [] {
      var n := |sources|;
      var init := sources[..n - 1];
      MergeAsWrittenFailsOnSharedKey(init);
      FirstWriterMergeKeys(init);
      assert forall i :: 0 <= i < n - 1 ==> init[i] == sources[i];
      if KeysDisjoint(sources) {
        assert KeysDisjoint(init);
      } else if KeysDisjoint(init) {
        var i, j, k :| 0 <= i < j < n && k in sources[i].1 && k in sources[j].1;
        assert j == n - 1;
        assert k in FirstWriterMerge(init);
      }
    }
  }

  /** Two galaxy types whose halo profile models share a parameter function. */
  lemma SharedProfFuncKeyRaises()
    ensures var f := ProfFunc("conc_NFWmodel");
      var sources := [("centrals", map["NFWmodel_conc" := f]), ("satellites", map["NFWmodel_conc" := f])];
      MergeAsWritten(sources) == Failure(WarningFormatError) &&
      FirstWriterMerge(sources) == map["NFWmodel_conc" := Entry(f, "centrals")]
  {
    var f := ProfFunc("conc_NFWmodel");
    var sources := [("centrals", map["NFWmodel_conc" := f]), ("satellites", map["NFWmodel_conc" := f])];
    MergeAsWrittenFailsOnSharedKey(sources);
    assert !KeysDisjoint(sources) by {
      assert "NFWmodel_conc" in sources[0].1 && "NFWmodel_conc" in sources[1].1;
    }
    FirstWriterMergeKeys(sources);
    FirstWriterMergeWins(sources);
    assert FirstOffer(sources, "NFWmodel_conc", 0);
    assert FirstWriterMerge(sources).Keys == {"NFWmodel_conc"};
  }

  /** Two galaxy types whose halo profile models share a parameter table. */
  lemma SharedTableKeyRaises()
    ensures var t := Tuple([1.0, 25.0, 0.5]);
      var sources := [("centrals", map["NFWmodel_conc" := t]), ("satellites", map["NFWmodel_conc" := t])];
      MergeAsWritten(sources) == Failure(WarningFormatError) &&
      FirstWriterMerge(sources) == map["NFWmodel_conc" := Entry(t, "centrals")]
  {
    var t := Tuple([1.0, 25.0, 0.5]);
    var sources := [("centrals", map["NFWmodel_conc" := t]), ("satellites", map["NFWmodel_conc" := t])];
    MergeAsWrittenFailsOnSharedKey(sources);
    assert !KeysDisjoint(sources) by {
      assert "NFWmodel_conc" in sources[0].1 && "NFWmodel_conc" in sources[1].1;
    }
    FirstWriterMergeKeys(sources);
    FirstWriterMergeWins(sources);
    assert FirstOffer(sources, "NFWmodel_conc", 0);
    assert FirstWriterMerge(sources).Keys == {"NFWmodel_conc"};
  }

  // ---------------------------------------------------------------------------
  // Override tables of set_prof_param_table_dict

  /** The TypeError an override value raises, if any. */
  function OverrideError(key: string, table: PyValue): Option<HodError>
  {
    if !table.Tuple? then Some(OverrideNotTuple(key))
    else if |table.elems| != 3 then Some(OverrideWrongLength(key))
    else None
  }

  /** The table dictionary after the overrides, and the error that stopped them, if any. */
  datatype Overridden = Overridden(tables: map<string, PyValue>, error: Option<HodError>)

  /** Writes the override items in order, stopping at the first invalid one. */
  function ApplyOverrides(tables: map<string, PyValue>, items: seq<(string, PyValue)>): Overridden
    decreases |items|
  {
    if items == [] then Overridden(tables, None)
    else
      match OverrideError(items[0].0, items[0].1)
      case Some(e) => Overridden(tables, Some(e))
      case None => ApplyOverrides(tables[items[0].0 := items[0].1], items[1..])
  }

  function ItemKeys(items: seq<(string, PyValue)>): seq<string>
  {
    seq(|items|, i requires 0 <= i < |items| => items[i].0)
  }

  /** Every item before j is a valid override. */
  predicate ValidBefore(items: seq<(string, PyValue)>, j: int)
    requires j <= |items|
  {
    forall i :: 0 <= i < j ==> OverrideError(items[i].0, items[i].1).None?
  }

  /**
    The overrides fail exactly when some item is not a 3-tuple, and then with
    the error of the first such item.
  */
  lemma {:induction false} ApplyOverridesErrors(tables: map<string, PyValue>, items: seq<(string, PyValue)>)
    ensures ApplyOverrides(tables, items).error.None? <==> ValidBefore(items, |items|)
    ensures ApplyOverrides(tables, items).error.Some? ==> exists j ::
      0 <= j < |items| && ValidBefore(items, j) &&
      ApplyOverrides(tables, items).error == OverrideError(items[j].0, items[j].1)
    decreases |items|
  {
    if items != [] {
      var rest := items[1..];
      assert forall j :: 0 <= j < |rest| ==> rest[j] == items[j + 1];
      if OverrideError(items[0].0, items[0].1).None? {
        var t := tables[items[0].0 := items[0].1];
        ApplyOverridesErrors(t, rest);
        if ApplyOverrides(t, rest).error.Some? {
          var j :| 0 <= j < |rest| && ValidBefore(rest, j) &&
            ApplyOverrides(t, rest).error == OverrideError(rest[j].0, rest[j].1);
          assert ValidBefore(items, j + 1);
        }
      } else {
        assert ValidBefore(items, 0);
      }
    }
  }

  /** Keys no override item names keep their merged entry. */
  lemma {:induction false} ApplyOverridesKeepsOthers(tables: map<string, PyValue>, items: seq<(string, PyValue)>, k: string)
    requires k !in ItemKeys(items)
    ensures k in ApplyOverrides(tables, items).tables <==> k in tables
    ensures k in tables ==> ApplyOverrides(tables, items).tables[k] == tables[k]
    decreases |items|
  {
    if items != [] {
      assert ItemKeys(items)[0] == items[0].0;
      assert forall j :: 0 <= j < |items[1..]| ==> ItemKeys(items[1..])[j] == ItemKeys(items)[j + 1];
      if OverrideError(items[0].0, items[0].1).None? {
        ApplyOverridesKeepsOthers(tables[items[0].0 := items[0].1], items[1..], k);
      }
    }
  }

  /** When every item is valid and names its own key, each key holds its item's table. */
  lemma {:induction false} ApplyOverridesStores(tables: map<string, PyValue>, items: seq<(string, PyValue)>)
    requires Distinct(ItemKeys(items)) && ApplyOverrides(tables, items).error.None?
    ensures forall j :: 0 <= j < |items| ==>
      items[j].0 in ApplyOverrides(tables, items).tables && ApplyOverrides(tables, items).tables[items[j].0] == items[j].1
    decreases |items|
  {
    if items != [] {
      var rest := items[1..];
      var ks := ItemKeys(items);
      var t := tables[items[0].0 := items[0].1];
      assert forall j :: 0 <= j < |rest| ==> rest[j] == items[j + 1] && ItemKeys(rest)[j] == ks[j + 1];
      assert items[0].0 !in ItemKeys(rest) by {
        assert forall j :: 0 <= j < |rest| ==> ItemKeys(rest)[j] != ks[0];
      }
      assert Distinct(ItemKeys(rest));
      ApplyOverridesStores(t, rest);
      ApplyOverridesKeepsOthers(t, rest, items[0].0);
    }
  }

  // ---------------------------------------------------------------------------
  // _build_publication_list

  /** `pub_list` after extending it with the publications of each feature in turn. */
  function PubList(feats: seq<Component>): seq<string>
  {
    if feats == [] then [] else PubList(feats[..|feats| - 1]) + feats[|feats| - 1].publications
  }

  /** A publication is in the extended list exactly when some feature lists it. */
  lemma {:induction false} PubListElems(feats: seq<Component>)
    ensures forall p :: p in PubList(feats) <==> exists f :: f in feats && p in f.publications
  {
    if feats != [] {
      var init := feats[..|feats| - 1];
      PubListElems(init);
      assert feats == init + [feats[|feats| - 1]];
    }
  }

  /** Prefixing a string is one-to-one. */
  lemma PrefixInjective(p: string, a: string, b: string)
    ensures a != b ==> p + a != p + b
  {
    assert (p + a)[|p|..] == a && (p + b)[|p|..] == b;
  }

  // ---------------------------------------------------------------------------
  // The composite model

  class HodModel {
    const modelBlueprint: Blueprint
    /** `model_defaults.galprop_prefix` */
    const galpropPrefix: string

    var haloPropKeyDict: map<string, string>
    var primHalopropKey: string
    var secHalopropKey: Option<string>
    var galTypes: seq<string>
    var occupationBound: map<string, int>
    var haloProfFuncDict: map<string, ProfFunc>
    var galProfParamKeys: seq<string>
    var profParamTableDict: map<string, PyValue>
    var galTypeProfParamKeyCorrespondence: map<string, string>
    var publications: seq<string>

    /** The blueprint is a dictionary and every galaxy type in galTypes is one of its keys. */
    ghost predicate Valid()
      reads this
    {
      modelBlueprint.Valid() && forall g :: g in galTypes ==> g in modelBlueprint.models
    }

    /** Binds the blueprint; every other attribute starts empty. */
    constructor (bp: Blueprint, prefix: string)
      requires bp.Valid()
      ensures Valid() && modelBlueprint == bp && galpropPrefix == prefix
      ensures haloPropKeyDict == map[] && secHalopropKey == None && galTypes == []
      ensures occupationBound == map[] && haloProfFuncDict == map[] && galProfParamKeys == []
      ensures profParamTableDict == map[] && galTypeProfParamKeyCorrespondence == map[]
      ensures publications == []
    {
      modelBlueprint := bp;
      galpropPrefix := prefix;
      haloPropKeyDict := map[];
      primHalopropKey := "";
      secHalopropKey := None;
      galTypes := [];
      occupationBound := map[];
      haloProfFuncDict := map[];
      galProfParamKeys := [];
      profParamTableDict := map[];
      galTypeProfParamKeyCorrespondence := map[];
      publications := [];
    }

    /** `_set_haloprops`: on an error nothing is assigned. */
    method SetHaloprops() returns (err: Option<HodError>)
      requires Valid()
      modifies this`haloPropKeyDict, this`primHalopropKey, this`secHalopropKey
      ensures Valid()
      ensures var d := HalopropKeyDict(modelBlueprint);
        if d.Failure? then
          err == Some(d.error) && haloPropKeyDict == old(haloPropKeyDict) &&
          primHalopropKey == old(primHalopropKey) && secHalopropKey == old(secHalopropKey)
        else
          err == None && haloPropKeyDict == d.value &&
          PrimHalopropKey in d.value && primHalopropKey == d.value[PrimHalopropKey] &&
          secHalopropKey == if SecHalopropKey in d.value then Some(d.value[SecHalopropKey]) else old(secHalopropKey)
    {
      HalopropKeyDictValues(modelBlueprint);
      var r := ReturnHalopropDict(modelBlueprint);
      if r.Failure? {
        return Some(r.error);
      }
      haloPropKeyDict := r.value;
      primHalopropKey := haloPropKeyDict[PrimHalopropKey];
      if SecHalopropKey in haloPropKeyDict {
        secHalopropKey := Some(haloPropKeyDict[SecHalopropKey]);
      }
      err := None;
    }

    /** `_set_gal_types` */
    method SetGalTypes()
      requires Valid()
      modifies this`galTypes, this`occupationBound
      ensures Valid()
      ensures galTypes == GalTypesByBound(modelBlueprint)
      ensures occupationBound == BoundMap(modelBlueprint, modelBlueprint.galTypes)
    {
      var keys := modelBlueprint.galTypes;
      var occupationBounds: seq<int> := [];
      for i := 0 to |keys|
        invariant occupationBounds == OccupationBounds(modelBlueprint, keys[..i])
      {
        occupationBounds := occupationBounds + [modelBlueprint.models[keys[i]].occupationBound];
      }
      assert keys[..|keys|] == keys;
      var sortedIdx := ArrayUtils.Argsort(occupationBounds);
      GalTypesByBoundOrders(modelBlueprint);
      var gs := ArrayUtils.Gather(keys, sortedIdx);
      galTypes := gs;
      occupationBound := map[];
      for i := 0 to |gs|
        invariant galTypes == gs
        invariant occupationBound == BoundMap(modelBlueprint, gs[..i])
      {
        BoundMapSnoc(modelBlueprint, gs, i);
        occupationBound := occupationBound[gs[i] := modelBlueprint.models[gs[i]].occupationBound];
      }
      assert gs[..|gs|] == gs;
      BoundMapSameElems(modelBlueprint, gs, keys);
    }

    /** `_set_halo_prof_func_dict`, with a repeated key ignored as its documentation intends. */
    method SetHaloProfFuncDict()
      requires Valid()
      modifies this`haloProfFuncDict, this`galProfParamKeys
      ensures Valid()
      ensures haloProfFuncDict == Values(FirstWriterMerge(ProfFuncSources(modelBlueprint, galTypes)))
      ensures |galProfParamKeys| == |haloProfFuncDict.Keys| && Distinct(galProfParamKeys)
      ensures Elems(galProfParamKeys) == set k | k in haloProfFuncDict :: galpropPrefix + k
    {
      var merged := MergeFirstWriter(ProfFuncSources(modelBlueprint, galTypes));
      haloProfFuncDict := Values(merged);
      SetGalProfParams();
    }

    /** `_set_gal_prof_params`: one prefixed key per halo profile parameter. */
    method SetGalProfParams()
      modifies this`galProfParamKeys
      ensures |galProfParamKeys| == |haloProfFuncDict.Keys| && Distinct(galProfParamKeys)
      ensures Elems(galProfParamKeys) == set k | k in haloProfFuncDict :: galpropPrefix + k
    {
      var keys: seq<string> := [];
      var remaining := haloProfFuncDict.Keys;
      while remaining != {}
        invariant remaining <= haloProfFuncDict.Keys
        invariant Distinct(keys)
        invariant |keys| + |remaining| == |haloProfFuncDict.Keys|
        invariant Elems(keys) == set k | k in haloProfFuncDict.Keys - remaining :: galpropPrefix + k
        decreases |remaining|
      {
        var key :| key in remaining;
        var galkey := galpropPrefix + key;
        assert galkey !in Elems(keys) by {
          forall k | k in haloProfFuncDict.Keys - remaining ensures galpropPrefix + k != galkey {
            PrefixInjective(galpropPrefix, k, key);
          }
        }
        ElemsAppend(keys, [galkey]);
        keys := keys + [galkey];
        remaining := remaining - {key};
      }
      galProfParamKeys := keys;
    }

    /**
      `set_prof_param_table_dict(input_dict)`, with a repeated key ignored as the
      documentation of the merge intends. The override dictionary is given as its
      items in iteration order; overrides before an invalid one stay written.
    */
    method SetProfParamTableDict(inputDict: Option<seq<(string, PyValue)>>) returns (err: Option<HodError>)
      requires Valid()
      modifies this`profParamTableDict, this`galTypeProfParamKeyCorrespondence
      ensures Valid()
      ensures var merged := FirstWriterMerge(TableSources(modelBlueprint, galTypes));
        var items := if inputDict.Some? then inputDict.value else [];
        galTypeProfParamKeyCorrespondence == Owners(merged) &&
        Overridden(profParamTableDict, err) == ApplyOverrides(Values(merged), items)
    {
      var merged := MergeFirstWriter(TableSources(modelBlueprint, galTypes));
      profParamTableDict := Values(merged);
      galTypeProfParamKeyCorrespondence := Owners(merged);
      err := None;
      if inputDict.Some? {
        var items := inputDict.value;
        for i := 0 to |items|
          invariant galTypeProfParamKeyCorrespondence == Owners(merged)
          invariant ApplyOverrides(Values(merged), items) == ApplyOverrides(profParamTableDict, items[i..])
        {
          var key := items[i].0;
          var table := items[i].1;
          assert items[i..][0] == items[i] && items[i..][1..] == items[i + 1..];
          if !table.Tuple? {
            err := Some(OverrideNotTuple(key));
            assert ApplyOverrides(profParamTableDict, items[i..]) == Overridden(profParamTableDict, err);
            return;
          }
          if |table.elems| != 3 {
            err := Some(OverrideWrongLength(key));
            assert ApplyOverrides(profParamTableDict, items[i..]) == Overridden(profParamTableDict, err);
            return;
          }
          profParamTableDict := profParamTableDict[key := table];
        }
        assert items[|items|..] == [];
      }
    }

    /** `_build_publication_list`: `list(set(pub_list))`. */
    method BuildPublicationList() returns (pubs: seq<string>)
      requires modelBlueprint.Valid()
      ensures Distinct(pubs)
      ensures forall p :: p in pubs <==> exists f :: f in AllFeatures(modelBlueprint) && p in f.publications
    {
      var pubList := ConcatPublications(modelBlueprint);
      PubListElems(AllFeatures(modelBlueprint));
      pubs := ListOfSet(pubList);
      assert forall p :: p in pubs <==> p in Elems(pubs);
      assert forall p :: p in pubList <==> p in Elems(pubList);
    }
  }

  /** The loops of `_build_publication_list` that extend `pub_list`. */
  method ConcatPublications(bp: Blueprint) returns (pubList: seq<string>)
    requires bp.Valid()
    ensures pubList == PubList(AllFeatures(bp))
  {
    pubList := [];
    for i := 0 to |bp.galTypes|
      invariant pubList == PubList(FeaturesOf(bp, bp.galTypes[..i]))
    {
      ghost var done := FeaturesOf(bp, bp.galTypes[..i]);
      var features := bp.models[bp.galTypes[i]].Features();
      assert done + features[..0] == done;
      for j := 0 to |features|
        invariant pubList == PubList(done + features[..j])
      {
        assert (done + features[..j + 1])[..|done| + j] == done + features[..j];
        pubList := pubList + features[j].publications;
      }
      assert features[..|features|] == features;
      FeaturesOfSnoc(bp, bp.galTypes, i);
    }
    assert bp.galTypes[..|bp.galTypes|] == bp.galTypes;
  }

  /** `list(set(s))`: each element of s once, in the order a set yields them. */
  method ListOfSet<T(==)>(s: seq<T>) returns (r: seq<T>)
    ensures Distinct(r) && Elems(r) == Elems(s)
  {
    var remaining := Elems(s);
    r := [];
    while remaining != {}
      invariant Distinct(r)
      invariant remaining !! Elems(r)
      invariant Elems(r) + remaining == Elems(s)
      decreases |remaining|
    {
      var x :| x in remaining;
      ElemsAppend(r, [x]);
      r := r + [x];
      remaining := remaining - {x};
    }
  }

  /**
    `HodModel(model_blueprint)`: the construction steps in the order of
    `__init__`, stopping at the error of the halo property keys.
  */
  method NewHodModel(bp: Blueprint, galpropPrefix: string) returns (r: Result<HodModel, HodError>)
    requires bp.Valid()
    ensures r.Failure? <==> HalopropKeyDict(bp).Failure?
    ensures r.Failure? ==> r.error == HalopropKeyDict(bp).error
    ensures r.Success? ==> fresh(r.value) && r.value.Valid() && r.value.modelBlueprint == bp
    ensures r.Success? ==> r.value.haloPropKeyDict == HalopropKeyDict(bp).value
    ensures r.Success? ==> var d := HalopropKeyDict(bp).value;
      PrimHalopropKey in d && r.value.primHalopropKey == d[PrimHalopropKey] &&
      r.value.secHalopropKey == if SecHalopropKey in d then Some(d[SecHalopropKey]) else None
    ensures r.Success? ==> r.value.galTypes == GalTypesByBound(bp)
    ensures r.Success? ==> r.value.occupationBound == BoundMap(bp, bp.galTypes)
    ensures r.Success? ==>
      r.value.haloProfFuncDict == Values(FirstWriterMerge(ProfFuncSources(bp, GalTypesByBound(bp))))
    ensures r.Success? ==>
      |r.value.galProfParamKeys| == |r.value.haloProfFuncDict.Keys| && Distinct(r.value.galProfParamKeys)
    ensures r.Success? ==>
      Elems(r.value.galProfParamKeys) == set k | k in r.value.haloProfFuncDict :: galpropPrefix + k
    ensures r.Success? ==> Distinct(r.value.publications)
    ensures r.Success? ==>
      forall p :: p in r.value.publications <==> exists f :: f in AllFeatures(bp) && p in f.publications
  {
    var m := new HodModel(bp, galpropPrefix);
    var err := m.SetHaloprops();
    if err.Some? {
      return Failure(err.value);
    }
    m.SetGalTypes();
    m.SetHaloProfFuncDict();
    var pubs := m.BuildPublicationList();
    m.publications := pubs;
    r := Success(m);
  }
}
