/** The partial-charge metadata property: a table from charge type id to
    charge method read from the `sb_ncbr_partial_atomic_charges_meta` CIF
    category, cached on the model under a fixed key. */
module FFFoldProvider {
  import opened Common
  import opened Cif
  import KeyedMap
  import Provider

  const PropertyKey := "sb-ncbr-partial-charges-property-data"
  const ChargesMeta := "sb_ncbr_partial_atomic_charges_meta"

  /** Why reading the metadata fails: the source data has no CIF frame, or
      the frame lacks the category. Either way the source reads a field of
      `undefined`; the cast to mmCIF checks nothing. */
  datatype Error = NoFrame | MissingCategory(name: string)

  /** The categories whose presence `hasProperties` asks for. */
  const ResidueCategories := {"sb_ncbr_residue_index", "sb_ncbr_residue_name", "sb_ncbr_optimized"}

  /** The structure is read from mmCIF and carries all three residue
      annotation categories; None stands for an absent structure. */
  function HasProperties(source: Option<SourceData>): (r: bool)
    ensures r <==> source.Some? && source.value.Mmcif? && ResidueCategories <= source.value.categories.Keys
  {
    if source.None? || !source.value.Mmcif? then false
    else
      var categories := source.value.categories;
      "sb_ncbr_residue_index" in categories
      && "sb_ncbr_residue_name" in categories
      && "sb_ncbr_optimized" in categories
  }

  /** Row `i` of the metadata category as an (id, method) pair. */
  function Rows(rowCount: nat, ids: Column, methods: Column): (rows: seq<(int, string)>)
    requires |ids.ints| == rowCount && |methods.strs| == rowCount
    ensures |rows| == rowCount
    ensures forall i :: 0 <= i < rowCount ==> rows[i] == (ids.ints[i], methods.strs[i])
  {
    seq(rowCount, i requires 0 <= i < rowCount => (ids.ints[i], methods.strs[i]))
  }

  function KeepRow(row: (int, string)): Option<(int, string)>
  {
    Some(row)
  }

  /** The table `getTypeIdToMethod` builds: empty when either column is
      missing, otherwise every row's id mapped to its method. */
  function TypeIdToMethod(source: SourceData): Result<map<int, string>, Error>
    requires WellFormed(source)
  {
    if Frame(source).None? then Err(NoFrame)
    else if ChargesMeta !in Frame(source).value then Err(MissingCategory(ChargesMeta))
    else
      var meta := Frame(source).value[ChargesMeta];
      if "id" !in meta.columns || "method" !in meta.columns then Ok(map[])
      else Ok(KeyedMap.Collect(Rows(meta.rowCount, meta.columns["id"], meta.columns["method"]), KeepRow))
  }

  /** The loop of `getTypeIdToMethod`, one `set` per row. */
  method GetTypeIdToMethod(source: SourceData) returns (r: Result<map<int, string>, Error>)
    requires WellFormed(source)
    ensures r == TypeIdToMethod(source)
  {
    var frame := Frame(source);
    if frame.None? {
      return Err(NoFrame);
    }
    if ChargesMeta !in frame.value {
      return Err(MissingCategory(ChargesMeta));
    }
    var typeIdToMethod: map<int, string> := map[];
    var meta := frame.value[ChargesMeta];
    var rowCount := meta.rowCount;
    if "id" !in meta.columns || "method" !in meta.columns {
      return Ok(typeIdToMethod);
    }
    var typeIds := meta.columns["id"];
    var methods := meta.columns["method"];
    ghost var rows := Rows(rowCount, typeIds, methods);
    for i := 0 to rowCount
      invariant typeIdToMethod == KeyedMap.Collect(rows[..i], KeepRow)
    {
      assert rows[..i + 1] == rows[..i] + [rows[i]];
      KeyedMap.CollectStep(rows[..i], rows[i], KeepRow);
      var typeId := typeIds.ints[i];
      var chargeMethod := methods.strs[i];
      typeIdToMethod := typeIdToMethod[typeId := chargeMethod];
    }
    assert rows[..rowCount] == rows;
    r := Ok(typeIdToMethod);
  }

  /** With the id or the method column missing the table is empty. */
  lemma TypeIdToMethodWithoutColumns(categories: map<string, Category>)
    requires WellFormed(Mmcif(categories)) && ChargesMeta in categories
    requires "id" !in categories[ChargesMeta].columns || "method" !in categories[ChargesMeta].columns
    ensures TypeIdToMethod(Mmcif(categories)) == Ok(map[])
  {
  }

  /** Otherwise the keys are exactly the ids of the rows, so there are at
      most `rowCount` of them. */
  lemma TypeIdToMethodKeys(categories: map<string, Category>)
    requires WellFormed(Mmcif(categories)) && ChargesMeta in categories
    requires "id" in categories[ChargesMeta].columns && "method" in categories[ChargesMeta].columns
    ensures TypeIdToMethod(Mmcif(categories)).Ok?
    ensures TypeIdToMethod(Mmcif(categories)).value.Keys
            == set i | 0 <= i < categories[ChargesMeta].rowCount :: categories[ChargesMeta].columns["id"].ints[i]
    ensures |TypeIdToMethod(Mmcif(categories)).value| <= categories[ChargesMeta].rowCount
  {
    var meta := categories[ChargesMeta];
    assert WellFormedCategory(meta);
    var rows := Rows(meta.rowCount, meta.columns["id"], meta.columns["method"]);
    KeyedMap.CollectKeys(rows, KeepRow);
    KeyedMap.CollectSize(rows, KeepRow);
    var ids := meta.columns["id"].ints;
    assert (set i | 0 <= i < |rows| && KeepRow(rows[i]).Some? :: KeepRow(rows[i]).value.0)
           == set i | 0 <= i < meta.rowCount :: ids[i];
  }

  /** For a repeated id, the method of the last row with that id wins. */
  lemma TypeIdToMethodLastRowWins(categories: map<string, Category>, j: int)
    requires WellFormed(Mmcif(categories)) && ChargesMeta in categories
    requires "id" in categories[ChargesMeta].columns && "method" in categories[ChargesMeta].columns
    requires 0 <= j < categories[ChargesMeta].rowCount
    requires forall l :: j < l < categories[ChargesMeta].rowCount ==>
               categories[ChargesMeta].columns["id"].ints[l] != categories[ChargesMeta].columns["id"].ints[j]
    ensures TypeIdToMethod(Mmcif(categories)).Ok?
    ensures var table := TypeIdToMethod(Mmcif(categories)).value;
            var id := categories[ChargesMeta].columns["id"].ints[j];
            id in table && table[id] == categories[ChargesMeta].columns["method"].strs[j]
  {
    var meta := categories[ChargesMeta];
    assert WellFormedCategory(meta);
    var rows := Rows(meta.rowCount, meta.columns["id"], meta.columns["method"]);
    KeyedMap.CollectLastWins(rows, KeepRow, j);
  }

  /** The format is never tested: a source of another format that carries
      a CIF frame gets the same table as mmCIF with that frame, and one
      without a frame fails. */
  lemma TypeIdToMethodIgnoresFormat(categories: map<string, Category>)
    requires WellFormed(Mmcif(categories))
    ensures WellFormed(OtherFormat(Some(categories)))
    ensures TypeIdToMethod(OtherFormat(Some(categories))) == TypeIdToMethod(Mmcif(categories))
    ensures TypeIdToMethod(OtherFormat(None)) == Err(NoFrame)
  {
  }

  /** A structure that passes the secondary-structure provider's
      `hasProperties` has the metadata category, so reading the table
      cannot fail on it. */
  lemma ProviderPropertiesAdmitTable(source: SourceData)
    requires WellFormed(source)
    requires Provider.HasProperties(Some(source))
    ensures TypeIdToMethod(source).Ok?
  {
  }

  /** This module's own `hasProperties` does not ask for the metadata
      category: a structure can pass it and still make the table fail. */
  lemma OwnPropertiesDoNotAdmitTable()
    ensures var source := Mmcif(map["sb_ncbr_residue_index" := Category(0, map[]),
                                    "sb_ncbr_residue_name" := Category(0, map[]),
                                    "sb_ncbr_optimized" := Category(0, map[])]);
            HasProperties(Some(source)) && WellFormed(source) && TypeIdToMethod(source).Err?
  {
  }

  /** The property value: the table, or undefined. */
  datatype ChargeData = ChargeData(typeIdToMethod: map<int, string>)
  datatype PropertyData = PropertyData(value: Option<ChargeData>)

  /** The custom property is applicable to every structure. */
  predicate IsApplicable(source: SourceData)
  {
    true
  }

  /** A structure's model, with the cache that custom properties keep on it. */
  class Model {
    const sourceData: SourceData
    var staticPropertyData: map<string, PropertyData>

    constructor (sourceData: SourceData)
      ensures this.sourceData == sourceData && staticPropertyData == map[]
    {
      this.sourceData := sourceData;
      staticPropertyData := map[];
    }

    /** `getData`: the cached value when there is one; otherwise the value
        is built, stored under `PropertyKey` and returned. A failure to
        read the table leaves the cache as it was. */
    method GetData() returns (r: Result<PropertyData, Error>)
      requires WellFormed(sourceData)
      modifies this
      ensures PropertyKey in old(staticPropertyData) ==>
                r == Ok(old(staticPropertyData)[PropertyKey]) && staticPropertyData == old(staticPropertyData)
      ensures PropertyKey !in old(staticPropertyData) ==>
                r == (match TypeIdToMethod(sourceData)
                      case Ok(table) => Ok(PropertyData(Some(ChargeData(table))))
                      case Err(e) => Err(e))
      ensures r.Ok? ==> staticPropertyData == old(staticPropertyData)[PropertyKey := r.value]
      ensures r.Err? ==> staticPropertyData == old(staticPropertyData)
    {
      if PropertyKey in staticPropertyData {
        return Ok(staticPropertyData[PropertyKey]);
      }
      var data;
      if !IsApplicable(sourceData) {
        data := PropertyData(None);
      } else {
        var table := GetTypeIdToMethod(sourceData);
        if table.Err? {
          return Err(table.error);
        }
        data := PropertyData(Some(ChargeData(table.value)));
      }
      staticPropertyData := staticPropertyData[PropertyKey := data];
      r := Ok(data);
    }

    /** Two calls in a row give the same answer: the second is served
        from the cache, or fails the way the first did. */
    method GetDataTwice() returns (first: Result<PropertyData, Error>, second: Result<PropertyData, Error>)
      requires WellFormed(sourceData)
      modifies this
      ensures first == second
      ensures first.Ok? ==> PropertyKey in staticPropertyData && staticPropertyData[PropertyKey] == first.value
    {
      first := GetData();
      second := GetData();
    }
  }
}
