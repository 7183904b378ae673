/** Seeding of the center catalog (`CenterDBPrep.PrepCentersDB`): the center
    types of the decoded seed file are added first, then one center per entry
    of the file, its type value looked up among the types already added; a
    single commit follows. Reading and decoding the file are not modelled: the
    decoded file is a parameter. A failure anywhere (an unknown type id, whose
    lookup yields null before `.Value` is read, or a key added twice) throws
    before the commit, so nothing is persisted. */
module CenterDbPrep {
  import opened Models
  import opened Database

  /** The two catalog tables. */
  datatype Catalog = Catalog(centerTypes: map<int, CenterType>, centers: map<int, Center>)

  /** The center a seed-file entry becomes: id, name and address copied, the
      type value copied from its type, and `centerTypeId` left at its default 0. */
  function SeededCenter(h: CenterJsonHelper, t: CenterType): Center
  {
    Center(h.id, h.name, h.streetAddress, 0, t.value)
  }

  /** The first loop: add each input type in order. A key that is already in
      the table, or was added earlier in the loop, makes the insertion throw. */
  function AddTypes(types: map<int, CenterType>, ts: seq<CenterType>): Option<map<int, CenterType>>
    decreases |ts|
  {
    if ts == [] then Some(types)
    else if ts[0].id in types then None
    else AddTypes(types[ts[0].id := ts[0]], ts[1..])
  }

  /** The second loop: add one center per entry in order. An entry whose type
      id is unknown throws (null `.Value`); so does a center key added twice. */
  function AddCenters(types: map<int, CenterType>, centers: map<int, Center>, hs: seq<CenterJsonHelper>)
    : Option<map<int, Center>>
    decreases |hs|
  {
    if hs == [] then Some(centers)
    else if hs[0].centerTypeId !in types then None
    else if hs[0].id in centers then None
    else AddCenters(types, centers[hs[0].id := SeededCenter(hs[0], types[hs[0].centerTypeId])], hs[1..])
  }

  /** `PrepCentersDB` on catalog values: types first, then centers, then commit. */
  function Seed(cat: Catalog, file: CenterJsonFile): Option<Catalog>
  {
    match AddTypes(cat.centerTypes, file.centerTypes)
    case None => None
    case Some(types) =>
      match AddCenters(types, cat.centers, file.centers)
      case None => None
      case Some(centers) => Some(Catalog(types, centers))
  }

  /** The guard both controller constructors run: seed only when there is no center. */
  function SeedIfEmpty(cat: Catalog, file: CenterJsonFile): Option<Catalog>
  {
    if |cat.centers| == 0 then Seed(cat, file) else Some(cat)
  }

  function TypeIds(ts: seq<CenterType>): set<int>
  {
    set t | t in ts :: t.id
  }

  function CenterIds(hs: seq<CenterJsonHelper>): set<int>
  {
    set h | h in hs :: h.id
  }

  /** No type id occurs twice in the input, and none is in the table already. */
  predicate TypeIdsNew(types: map<int, CenterType>, ts: seq<CenterType>)
  {
    && (forall i :: 0 <= i < |ts| ==> ts[i].id !in types)
    && (forall i, j :: 0 <= i < j < |ts| ==> ts[i].id != ts[j].id)
  }

  /** No center id occurs twice in the input, and none is in the table already. */
  predicate CenterIdsNew(centers: map<int, Center>, hs: seq<CenterJsonHelper>)
  {
    && (forall i :: 0 <= i < |hs| ==> hs[i].id !in centers)
    && (forall i, j :: 0 <= i < j < |hs| ==> hs[i].id != hs[j].id)
  }

  /** Every input center names a type id that `Find` resolves in `types`. */
  predicate TypesResolve(types: set<int>, hs: seq<CenterJsonHelper>)
  {
    forall i :: 0 <= i < |hs| ==> hs[i].centerTypeId in types
  }

  lemma {:induction false} AddTypesSucceedsIff(types: map<int, CenterType>, ts: seq<CenterType>)
    ensures AddTypes(types, ts).Some? <==> TypeIdsNew(types, ts)
    decreases |ts|
  {
    if ts != [] && ts[0].id !in types {
      var types' := types[ts[0].id := ts[0]];
      AddTypesSucceedsIff(types', ts[1..]);
      if TypeIdsNew(types', ts[1..]) {
        forall i, j | 0 <= i < j < |ts| ensures ts[i].id != ts[j].id {
          if i > 0 { assert ts[i] == ts[1..][i - 1] && ts[j] == ts[1..][j - 1]; }
          else { assert ts[j] == ts[1..][j - 1]; }
        }
        forall i | 0 <= i < |ts| ensures ts[i].id !in types {
          if i > 0 { assert ts[i] == ts[1..][i - 1]; }
        }
      }
      if TypeIdsNew(types, ts) {
        forall i | 0 <= i < |ts[1..]| ensures ts[1..][i].id !in types' {
          assert ts[1..][i] == ts[i + 1];
        }
        forall i, j | 0 <= i < j < |ts[1..]| ensures ts[1..][i].id != ts[1..][j].id {
          assert ts[1..][i] == ts[i + 1] && ts[1..][j] == ts[j + 1];
        }
      }
    }
  }

  /** What the first loop leaves behind: the old types plus exactly the input types. */
  lemma {:induction false} AddTypesContents(types: map<int, CenterType>, ts: seq<CenterType>)
    requires AddTypes(types, ts).Some?
    ensures var r := AddTypes(types, ts).value;
      && r.Keys == types.Keys + TypeIds(ts)
      && (forall k :: k in types ==> r[k] == types[k])
      && (forall t :: t in ts ==> r[t.id] == t)
      && (TypesKeyed(types) ==> TypesKeyed(r))
    decreases |ts|
  {
    if ts != [] {
      var types' := types[ts[0].id := ts[0]];
      AddTypesContents(types', ts[1..]);
      assert TypeIds(ts) == {ts[0].id} + TypeIds(ts[1..]) by {
        assert forall t :: t in ts <==> t == ts[0] || t in ts[1..];
      }
      var r := AddTypes(types, ts).value;
      forall t | t in ts ensures r[t.id] == t {
        if t != ts[0] { assert t in ts[1..]; }
      }
    }
  }

  lemma {:induction false} AddCentersSucceedsIff(
    types: map<int, CenterType>, centers: map<int, Center>, hs: seq<CenterJsonHelper>)
    ensures AddCenters(types, centers, hs).Some?
        <==> TypesResolve(types.Keys, hs) && CenterIdsNew(centers, hs)
    decreases |hs|
  {
    if hs != [] && hs[0].centerTypeId in types && hs[0].id !in centers {
      var centers' := centers[hs[0].id := SeededCenter(hs[0], types[hs[0].centerTypeId])];
      AddCentersSucceedsIff(types, centers', hs[1..]);
      if TypesResolve(types.Keys, hs[1..]) && CenterIdsNew(centers', hs[1..]) {
        forall i | 0 <= i < |hs| ensures hs[i].centerTypeId in types && hs[i].id !in centers {
          if i > 0 { assert hs[i] == hs[1..][i - 1]; }
        }
        forall i, j | 0 <= i < j < |hs| ensures hs[i].id != hs[j].id {
          if i > 0 { assert hs[i] == hs[1..][i - 1] && hs[j] == hs[1..][j - 1]; }
          else { assert hs[j] == hs[1..][j - 1]; }
        }
      }
      if TypesResolve(types.Keys, hs) && CenterIdsNew(centers, hs) {
        forall i | 0 <= i < |hs[1..]|
          ensures hs[1..][i].centerTypeId in types && hs[1..][i].id !in centers'
        {
          assert hs[1..][i] == hs[i + 1];
        }
        forall i, j | 0 <= i < j < |hs[1..]| ensures hs[1..][i].id != hs[1..][j].id {
          assert hs[1..][i] == hs[i + 1] && hs[1..][j] == hs[j + 1];
        }
      }
    } else if hs != [] {
      assert !(hs[0].centerTypeId in types.Keys && hs[0].id !in centers);
    }
  }

  /** What the second loop leaves behind: the old centers plus one seeded center
      per input entry, built from the entry and the type its type id names. */
  lemma {:induction false} AddCentersContents(
    types: map<int, CenterType>, centers: map<int, Center>, hs: seq<CenterJsonHelper>)
    requires AddCenters(types, centers, hs).Some?
    ensures var r := AddCenters(types, centers, hs).value;
      && r.Keys == centers.Keys + CenterIds(hs)
      && (forall k :: k in centers ==> r[k] == centers[k])
      && (forall h :: h in hs ==> h.centerTypeId in types && r[h.id] == SeededCenter(h, types[h.centerTypeId]))
      && (CentersKeyed(centers) ==> CentersKeyed(r))
    decreases |hs|
  {
    if hs != [] {
      var centers' := centers[hs[0].id := SeededCenter(hs[0], types[hs[0].centerTypeId])];
      AddCentersContents(types, centers', hs[1..]);
      AddCentersSucceedsIff(types, centers, hs);
      assert CenterIds(hs) == {hs[0].id} + CenterIds(hs[1..]) by {
        assert forall h :: h in hs <==> h == hs[0] || h in hs[1..];
      }
      var r := AddCenters(types, centers, hs).value;
      forall h | h in hs ensures h.centerTypeId in types && r[h.id] == SeededCenter(h, types[h.centerTypeId]) {
        if h != hs[0] { assert h in hs[1..]; }
      }
    }
  }

  /** Seeding succeeds exactly when the input type ids are new and distinct,
      the input center ids are new and distinct, and every center's type id is
      either already stored or among the input types: types go in before
      centers, so a center may name any type of the same file. */
  lemma SeedSucceedsIff(cat: Catalog, file: CenterJsonFile)
    ensures Seed(cat, file).Some?
        <==> && TypeIdsNew(cat.centerTypes, file.centerTypes)
             && CenterIdsNew(cat.centers, file.centers)
             && TypesResolve(cat.centerTypes.Keys + TypeIds(file.centerTypes), file.centers)
  {
    AddTypesSucceedsIff(cat.centerTypes, file.centerTypes);
    if AddTypes(cat.centerTypes, file.centerTypes).Some? {
      var types := AddTypes(cat.centerTypes, file.centerTypes).value;
      AddTypesContents(cat.centerTypes, file.centerTypes);
      AddCentersSucceedsIff(types, cat.centers, file.centers);
    }
  }

  /** A center whose type id is neither stored nor in the file makes seeding fail. */
  lemma UnknownTypeFails(cat: Catalog, file: CenterJsonFile, i: int)
    requires 0 <= i < |file.centers|
    requires file.centers[i].centerTypeId !in cat.centerTypes
    requires file.centers[i].centerTypeId !in TypeIds(file.centerTypes)
    ensures Seed(cat, file) == None
  {
    SeedSucceedsIff(cat, file);
  }

  /** A successful seed stores every input type, and for each input center
      exactly one center with the same id, name and street address, a
      `centerTypeId` of 0, and the value of the type its entry names; nothing
      stored before is lost or changed. */
  lemma SeedContents(cat: Catalog, file: CenterJsonFile)
    requires Seed(cat, file).Some?
    ensures var r := Seed(cat, file).value;
      && r.centerTypes.Keys == cat.centerTypes.Keys + TypeIds(file.centerTypes)
      && r.centers.Keys == cat.centers.Keys + CenterIds(file.centers)
      && (forall k :: k in cat.centerTypes ==> r.centerTypes[k] == cat.centerTypes[k])
      && (forall k :: k in cat.centers ==> r.centers[k] == cat.centers[k])
      && (forall t :: t in file.centerTypes ==> r.centerTypes[t.id] == t)
      && (forall h :: h in file.centers ==>
            && h.centerTypeId in r.centerTypes
            && r.centers[h.id].id == h.id
            && r.centers[h.id].name == h.name
            && r.centers[h.id].streetAddress == h.streetAddress
            && r.centers[h.id].centerTypeId == 0
            && r.centers[h.id].centerTypeValue == r.centerTypes[h.centerTypeId].value)
      && (TypesKeyed(cat.centerTypes) ==> TypesKeyed(r.centerTypes))
      && (CentersKeyed(cat.centers) ==> CentersKeyed(r.centers))
  {
    AddTypesContents(cat.centerTypes, file.centerTypes);
    var types := AddTypes(cat.centerTypes, file.centerTypes).value;
    AddCentersContents(types, cat.centers, file.centers);
  }

  /** Once a seed with at least one center has succeeded, the guard never seeds again. */
  lemma SeedIfEmptyIdempotent(cat: Catalog, file: CenterJsonFile)
    requires file.centers != []
    requires SeedIfEmpty(cat, file).Some?
    ensures SeedIfEmpty(SeedIfEmpty(cat, file).value, file) == SeedIfEmpty(cat, file)
  {
    var r := SeedIfEmpty(cat, file).value;
    if |cat.centers| == 0 {
      SeedContents(cat, file);
      assert file.centers[0].id in r.centers;
    }
  }

  /** The guard looks at centers only: after seeding a file that has types but
      no centers, the next guarded call seeds again and the repeated type keys
      make it fail. */
  lemma SeedIfEmptyRepeatsWithoutCenters(cat: Catalog, file: CenterJsonFile)
    requires file.centers == [] && file.centerTypes != []
    requires SeedIfEmpty(cat, file).Some?
    requires |cat.centers| == 0
    ensures SeedIfEmpty(SeedIfEmpty(cat, file).value, file) == None
  {
    SeedContents(cat, file);
    var r := SeedIfEmpty(cat, file).value;
    assert r.centers == cat.centers;
    SeedSucceedsIff(r, file);
    assert file.centerTypes[0].id in r.centerTypes;
  }

  /** `PrepCentersDB`: two loops over the decoded file that add to working
      copies of the tables, then one commit. `ok` is false when the routine
      would throw; then nothing is committed. */
  method PrepCentersDb(context: ApiContext, file: CenterJsonFile) returns (ok: bool)
    requires context.Valid()
    modifies context
    ensures context.Valid()
    ensures context.appointments == old(context.appointments)
    ensures context.nextAppointmentId == old(context.nextAppointmentId)
    ensures var s := Seed(Catalog(old(context.centerTypes), old(context.centers)), file);
      && ok == s.Some?
      && (ok ==> Catalog(context.centerTypes, context.centers) == s.value)
      && (!ok ==> context.centerTypes == old(context.centerTypes) && context.centers == old(context.centers))
  {
    var ts := file.centerTypes;
    var types := context.centerTypes;
    var i := 0;
    while i < |ts|
      invariant 0 <= i <= |ts|
      invariant AddTypes(context.centerTypes, ts) == AddTypes(types, ts[i..])
    {
      var t := ts[i];
      assert ts[i..][0] == t && ts[i..][1..] == ts[i + 1..];
      if t.id in types {
        return false;
      }
      types := types[t.id := t];
      i := i + 1;
    }
    assert ts[i..] == [];

    var hs := file.centers;
    var centers := context.centers;
    var j := 0;
    while j < |hs|
      invariant 0 <= j <= |hs|
      invariant AddCenters(types, context.centers, hs) == AddCenters(types, centers, hs[j..])
    {
      var h := hs[j];
      assert hs[j..][0] == h && hs[j..][1..] == hs[j + 1..];
      if h.centerTypeId !in types {
        return false;
      }
      var c := SeededCenter(h, types[h.centerTypeId]);
      if c.id in centers {
        return false;
      }
      centers := centers[c.id := c];
      j := j + 1;
    }
    assert hs[j..] == [];

    SeedContents(Catalog(context.centerTypes, context.centers), file);
    context.centerTypes, context.centers := types, centers;
    ok := true;
  }
}
