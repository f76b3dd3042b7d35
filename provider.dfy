/** The secondary-structure custom property: which source it takes by
    default ("model" annotations or a DSSP computation), and the map from
    unit invariant id to secondary structure that each source yields. */
module Provider {
  import opened Common
  import opened Cif
  import KeyedMap

  /** A secondary-structure element; `kind` is e.g. "helix" or "none". */
  datatype SSElement = SSElement(kind: string)

  /** A unit's secondary structure: `index` plays `getIndex` (residue index
      to a position in `key`), `key` maps that position to an element. */
  datatype SecondaryStructure = SecondaryStructure(index: map<int, int>, key: seq<int>, elements: seq<SSElement>)

  /** A unit of a structure, with the facts the provider asks of it and of
      its model: `modelSecondaryStructure` is what the model-annotation
      provider holds for the unit's model. */
  datatype Unit = Unit(
    invariantId: int,
    isAtomic: bool,
    modelCoarseGrained: bool,
    modelSecondaryStructure: Option<SecondaryStructure>)

  /** A symmetry group: its units, of which there is always a first. */
  datatype SymmetryGroup = SymmetryGroup(first: Unit, rest: seq<Unit>)

  /** A model of the structure's trajectory. */
  datatype ModelInfo = ModelInfo(fromPdbArchive: bool, hasSecondaryStructure: bool)

  datatype Structure = Structure(models: seq<ModelInfo>, unitSymmetryGroups: seq<SymmetryGroup>, sourceData: SourceData)

  /** The two sources, "model" and "dssp". */
  datatype SSType = ModelType | DsspType

  /** The parameter definition: a choice between the two sources, with a
      default. */
  datatype Params = Params(defaultType: SSType)

  /** Options handed to the DSSP computation unchanged. */
  datatype DsspProps = DsspProps(options: map<string, bool>)

  /** A chosen source with its parameters (`p.type` of the source). */
  datatype TypeChoice = ModelChoice | DsspChoice(props: DsspProps)

  /** The partial props passed to `obtain`: the `type` field may be absent. */
  datatype Props = Props(typeChoice: Option<TypeChoice>)

  /** A model that carries its own secondary structure: an archival entry
      or one with a secondary-structure definition. */
  predicate ProvidesSecondaryStructure(m: ModelInfo)
  {
    m.fromPdbArchive || m.hasSecondaryStructure
  }

  /** The default source: "model" without a structure or when some model
      provides secondary structure, "dssp" otherwise. */
  function DefaultType(data: Option<Structure>): SSType
  {
    if data.None? then ModelType
    else if exists i :: 0 <= i < |data.value.models| && ProvidesSecondaryStructure(data.value.models[i]) then ModelType
    else DsspType
  }

  /** The scan that picks the default source, stopping at the first model
      that provides secondary structure. */
  method GetSecondaryStructureParams(data: Option<Structure>) returns (p: Params)
    ensures p.defaultType == DefaultType(data)
  {
    var defaultType := ModelType;
    if data.Some? {
      defaultType := DsspType;
      var models := data.value.models;
      var i := 0;
      while i < |models|
        invariant 0 <= i <= |models|
        invariant defaultType == DsspType
        invariant forall k :: 0 <= k < i ==> !ProvidesSecondaryStructure(models[k])
      {
        var m := models[i];
        if m.fromPdbArchive || m.hasSecondaryStructure {
          defaultType := ModelType;
          break;
        }
        i := i + 1;
      }
    }
    p := Params(defaultType);
  }

  /** A structure none of whose models provides secondary structure, the
      empty model list included, defaults to "dssp". */
  lemma DefaultWithoutModelAnnotation(s: Structure)
    requires forall i :: 0 <= i < |s.models| ==> !ProvidesSecondaryStructure(s.models[i])
    ensures DefaultType(Some(s)) == DsspType
  {
  }

  /** Once a model provides secondary structure, the models after it do not
      matter: the default is "model" whatever follows. */
  lemma DefaultIgnoresLaterModels(s: Structure, j: int, later: seq<ModelInfo>)
    requires 0 <= j < |s.models| && ProvidesSecondaryStructure(s.models[j])
    ensures DefaultType(Some(s.(models := s.models[..j + 1] + later))) == ModelType
  {
    var models := s.models[..j + 1] + later;
    assert models[j] == s.models[j];
  }

  /** The parameters defined once, without a structure. */
  const StaticParams := Params(DefaultType(None))

  /** The value the static parameters give `type` by default. */
  function DefaultChoice(p: Params): TypeChoice
    requires p.defaultType == ModelType
  {
    ModelChoice
  }

  /** The supplied props spread over the defaults. */
  function Merged(props: Props): (t: TypeChoice)
    ensures props.typeChoice.Some? ==> t == props.typeChoice.value
    ensures props.typeChoice.None? ==> t == ModelChoice
  {
    match props.typeChoice
    case Some(t) => t
    case None => DefaultChoice(StaticParams)
  }

  /** `computeModel` keeps the first unit of a group when it is atomic and
      its model has secondary structure. */
  function ModelEntry(g: SymmetryGroup): Option<(int, SecondaryStructure)>
  {
    var u := g.first;
    if u.isAtomic && u.modelSecondaryStructure.Some? then Some((u.invariantId, u.modelSecondaryStructure.value)) else None
  }

  /** `computeDssp` keeps the first unit of a group when it is atomic and
      not coarse-grained, with the DSSP result for it. */
  function DsspEntry(g: SymmetryGroup, dssp: (Unit, DsspProps) -> SecondaryStructure, props: DsspProps): Option<(int, SecondaryStructure)>
  {
    var u := g.first;
    if u.isAtomic && !u.modelCoarseGrained then Some((u.invariantId, dssp(u, props))) else None
  }

  function DsspSelect(dssp: (Unit, DsspProps) -> SecondaryStructure, props: DsspProps): SymmetryGroup -> Option<(int, SecondaryStructure)>
  {
    g => DsspEntry(g, dssp, props)
  }

  /** The value of the "model" source. */
  function ModelMap(groups: seq<SymmetryGroup>): map<int, SecondaryStructure>
  {
    KeyedMap.Collect(groups, ModelEntry)
  }

  /** The value of the "dssp" source; `dssp` is the DSSP computation for one
      unit, which is not part of this model. */
  function DsspMap(groups: seq<SymmetryGroup>, dssp: (Unit, DsspProps) -> SecondaryStructure, props: DsspProps): map<int, SecondaryStructure>
  {
    KeyedMap.Collect(groups, DsspSelect(dssp, props))
  }

  method ComputeModel(structure: Structure) returns (m: map<int, SecondaryStructure>)
    ensures m == ModelMap(structure.unitSymmetryGroups)
  {
    var groups := structure.unitSymmetryGroups;
    m := map[];
    for i := 0 to |groups|
      invariant m == ModelMap(groups[..i])
    {
      assert groups[..i + 1] == groups[..i] + [groups[i]];
      KeyedMap.CollectStep(groups[..i], groups[i], ModelEntry);
      var u := groups[i].first;
      if u.isAtomic {
        var secondaryStructure := u.modelSecondaryStructure;
        if secondaryStructure.Some? {
          m := m[u.invariantId := secondaryStructure.value];
        }
      }
    }
    assert groups[..|groups|] == groups;
  }

  method ComputeDssp(structure: Structure, dssp: (Unit, DsspProps) -> SecondaryStructure, props: DsspProps)
    returns (m: map<int, SecondaryStructure>)
    ensures m == DsspMap(structure.unitSymmetryGroups, dssp, props)
  {
    var groups := structure.unitSymmetryGroups;
    m := map[];
    for i := 0 to |groups|
      invariant m == DsspMap(groups[..i], dssp, props)
    {
      assert groups[..i + 1] == groups[..i] + [groups[i]];
      KeyedMap.CollectStep(groups[..i], groups[i], DsspSelect(dssp, props));
      var u := groups[i].first;
      if u.isAtomic && !u.modelCoarseGrained {
        var secondaryStructure := dssp(u, props);
        m := m[u.invariantId := secondaryStructure];
      }
    }
    assert groups[..|groups|] == groups;
  }

  /** The keys of the "model" value are exactly the invariant ids of the
      first units that are atomic and have model secondary structure. */
  lemma ModelMapKeys(groups: seq<SymmetryGroup>)
    ensures ModelMap(groups).Keys
            == set i | 0 <= i < |groups| && groups[i].first.isAtomic && groups[i].first.modelSecondaryStructure.Some?
                 :: groups[i].first.invariantId
  {
    KeyedMap.CollectKeys(groups, ModelEntry);
  }

  /** The keys of the "dssp" value are exactly the invariant ids of the
      first units that are atomic and not coarse-grained. */
  lemma DsspMapKeys(groups: seq<SymmetryGroup>, dssp: (Unit, DsspProps) -> SecondaryStructure, props: DsspProps)
    ensures DsspMap(groups, dssp, props).Keys
            == set i | 0 <= i < |groups| && groups[i].first.isAtomic && !groups[i].first.modelCoarseGrained
                 :: groups[i].first.invariantId
  {
    KeyedMap.CollectKeys(groups, DsspSelect(dssp, props));
  }

  /** When groups share an invariant id, the last kept group's model
      secondary structure is the one stored. */
  lemma ModelMapLastWins(groups: seq<SymmetryGroup>, j: int)
    requires 0 <= j < |groups| && ModelEntry(groups[j]).Some?
    requires forall l :: j < l < |groups| && ModelEntry(groups[l]).Some? ==>
               groups[l].first.invariantId != groups[j].first.invariantId
    ensures groups[j].first.invariantId in ModelMap(groups)
    ensures ModelMap(groups)[groups[j].first.invariantId] == groups[j].first.modelSecondaryStructure.value
  {
    KeyedMap.CollectLastWins(groups, ModelEntry, j);
  }

  /** When groups share an invariant id, the DSSP result of the last kept
      group's first unit is the one stored. */
  lemma DsspMapLastWins(groups: seq<SymmetryGroup>, dssp: (Unit, DsspProps) -> SecondaryStructure, props: DsspProps, j: int)
    requires 0 <= j < |groups| && DsspEntry(groups[j], dssp, props).Some?
    requires forall l :: j < l < |groups| && DsspEntry(groups[l], dssp, props).Some? ==>
               groups[l].first.invariantId != groups[j].first.invariantId
    ensures groups[j].first.invariantId in DsspMap(groups, dssp, props)
    ensures DsspMap(groups, dssp, props)[groups[j].first.invariantId] == dssp(groups[j].first, props)
  {
    KeyedMap.CollectLastWins(groups, DsspSelect(dssp, props), j);
  }

  /** `obtain`: merges the props over the defaults and computes the chosen
      source's value. */
  method Obtain(structure: Structure, props: Props, dssp: (Unit, DsspProps) -> SecondaryStructure)
    returns (value: map<int, SecondaryStructure>)
    ensures Merged(props).ModelChoice? ==> value == ModelMap(structure.unitSymmetryGroups)
    ensures Merged(props).DsspChoice? ==> value == DsspMap(structure.unitSymmetryGroups, dssp, Merged(props).props)
  {
    var p := Merged(props);
    match p
    case DsspChoice(dsspProps) =>
      value := ComputeDssp(structure, dssp, dsspProps);
    case ModelChoice =>
      value := ComputeModel(structure);
  }

  /** `obtain` does not consult the structure's own default: for a
      structure none of whose models provides secondary structure the
      parameters built from it default to "dssp", yet `obtain` without a
      `type` prop still reads the model annotations, because its defaults
      come from the parameters defined without a structure. */
  lemma ObtainIgnoresStructureDefault(props: Props, s: Structure)
    requires props.typeChoice.None?
    requires forall i :: 0 <= i < |s.models| ==> !ProvidesSecondaryStructure(s.models[i])
    ensures DefaultType(Some(s)) == DsspType
    ensures Merged(props) == ModelChoice
  {
    DefaultWithoutModelAnnotation(s);
  }

  const AtomSite := "atom_site"
  const PartialAtomicCharges := "sb_ncbr_partial_atomic_charges"
  const PartialAtomicChargesMeta := "sb_ncbr_partial_atomic_charges_meta"

  /** The structure is read from mmCIF and carries the atom sites and both
      partial-charge categories; None stands for an absent structure. */
  function HasProperties(source: Option<SourceData>): (r: bool)
    ensures r <==> source.Some? && source.value.Mmcif?
                   && {AtomSite, PartialAtomicCharges, PartialAtomicChargesMeta} <= source.value.categories.Keys
  {
    if source.None? || !source.value.Mmcif? then false
    else
      var categories := source.value.categories;
      AtomSite in categories && PartialAtomicCharges in categories && PartialAtomicChargesMeta in categories
  }
}
