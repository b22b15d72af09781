/**
 * The hand-authored label table of the six-class tissue segmentation: built
 * from constants, with no input file.
 */
module Labels {
  import opened Base

  /** One label: its index, its name, and the matching atlas region name (left empty here). */
  datatype LabelRow = LabelRow(number: int, name: string, atlasName: Option<string>)

  const Label006Columns: seq<string> :=
    ["Number", "Region Name of Label006.nii.gz", "Region Name of Brain/MINDS Marmoset Reference Atlas (BMA)"]

  const Label006Names: seq<string> :=
    ["CSF", "Gray Matter", "White Matter", "Ventricles", "Brainstem", "Cerebellum"]

  /** A label table: its header and its rows. */
  datatype LabelTable = LabelTable(columns: seq<string>, rows: seq<LabelRow>)

  /**
   * The Label006 frame: the three columns in the order they are assigned,
   * `np.arange(1, 7)` beside the six names, the atlas column all null.
   */
  function Label006(): (t: LabelTable)
    ensures t.columns == ["Number", "Region Name of Label006.nii.gz",
                          "Region Name of Brain/MINDS Marmoset Reference Atlas (BMA)"]
    ensures |t.rows| == 6
    ensures forall i :: 0 <= i < 6 ==> t.rows[i].number == i + 1 && t.rows[i].atlasName == None
    ensures [t.rows[0].name, t.rows[1].name, t.rows[2].name, t.rows[3].name, t.rows[4].name, t.rows[5].name]
            == ["CSF", "Gray Matter", "White Matter", "Ventricles", "Brainstem", "Cerebellum"]
  {
    LabelTable(Label006Columns, seq(6, i requires 0 <= i < 6 => LabelRow(i + 1, Label006Names[i], None)))
  }
}
