/** A CSV file of the remote store as pandas hands it to the app. */
module Tables {

  /** `NoFile` is the column-less frame `download_csv` returns when the file
      does not exist; `Csv` is a frame with its header and its data rows. */
  datatype Table<R> = NoFile | Csv(rows: seq<R>) {

    /** The data rows; a column-less frame has none. */
    function Rows(): seq<R> {
      if NoFile? then [] else rows
    }

    /** pandas' `DataFrame.empty`: no rows, or no columns at all. */
    predicate IsEmpty() {
      |Rows()| == 0
    }
  }

  /** `pd.concat([t, one_row], ignore_index=True)`: the frame gains the row
      at its end; a column-less frame simply becomes the new row's frame. */
  function Append<R>(t: Table<R>, row: R): (t': Table<R>)
    ensures t'.Csv?
    ensures |t'.Rows()| == |t.Rows()| + 1
    ensures t'.Rows()[..|t.Rows()|] == t.Rows()
    ensures t'.Rows()[|t.Rows()|] == row
  {
    Csv(t.Rows() + [row])
  }
}
