/** The slice of a parsed structure file that the two providers inspect: the
    format of the model's source data and the categories of its CIF frame. */
module Cif {
  import opened Common

  /** One column of a category, read either as integers or as text; both
      views have one cell per row (number parsing is not modelled). */
  datatype Column = Column(ints: seq<int>, strs: seq<string>)

  /** A CIF category: its number of rows and its columns by field name. */
  datatype Category = Category(rowCount: nat, columns: map<string, Column>)

  /** The model's source data: an mmCIF file, whose frame holds its
      categories by name, or some other format, which may or may not carry
      a CIF frame of its own. */
  datatype SourceData = Mmcif(categories: map<string, Category>) | OtherFormat(frame: Option<map<string, Category>>)

  /** The categories of the data's CIF frame, whatever the format; None when
      there is no frame to read. */
  function Frame(s: SourceData): (f: Option<map<string, Category>>)
    ensures s.Mmcif? ==> f == Some(s.categories)
    ensures s.OtherFormat? ==> f == s.frame
  {
    match s
    case Mmcif(categories) => Some(categories)
    case OtherFormat(frame) => frame
  }

  /** Every column holds exactly `rowCount` cells, as the parser produces. */
  predicate WellFormedCategory(c: Category)
  {
    forall f :: f in c.columns ==> |c.columns[f].ints| == c.rowCount && |c.columns[f].strs| == c.rowCount
  }

  predicate WellFormed(s: SourceData)
  {
    Frame(s).Some? ==> forall name :: name in Frame(s).value ==> WellFormedCategory(Frame(s).value[name])
  }
}
