/**
 * The history file: absent before the first run, afterwards the full list of rows. Every
 * run reads it, adds its own row at the end and writes the whole list back.
 */
module History {
  import opened Wrappers
  import opened Reconcile

  /** The rows a stored history holds; an absent file reads as no rows. */
  function Rows(stored: Option<seq<Record>>): seq<Record>
  {
    if stored.Some? then stored.value else []
  }

  class HistoryFile {
    /** The file's contents: None while the file does not exist. */
    var stored: Option<seq<Record>>

    constructor (initial: Option<seq<Record>>)
      ensures stored == initial
    {
      stored := initial;
    }

    /** Read the whole history; an absent file gives the empty history. */
    method Load() returns (rows: seq<Record>)
      ensures stored.None? ==> rows == []
      ensures stored.Some? ==> rows == stored.value
    {
      if stored.Some? {
        rows := stored.value;
      } else {
        rows := [];
      }
    }

    /**
     * Append one record: the prior rows (none if the file is absent) followed by the new
     * one become the file's whole contents, which are also returned for aggregation.
     */
    method Append(r: Record) returns (history: seq<Record>)
      modifies this
      ensures history == Rows(old(stored)) + [r]
      ensures |history| == |Rows(old(stored))| + 1 && history[|history| - 1] == r
      ensures history[..|history| - 1] == Rows(old(stored))
      ensures old(stored).None? ==> history == [r]
      ensures stored == Some(history)
    {
      if stored.Some? {
        history := stored.value + [r];
      } else {
        history := [r];
      }
      stored := Some(history);
    }
  }

  /** Every row's gain is its spreadsheet total minus its invoice total. */
  predicate AllConsistent(rows: seq<Record>)
  {
    forall i :: 0 <= i < |rows| ==> Consistent(rows[i])
  }

  /** Appending keeps every row consistent when the prior rows and the new row are. */
  lemma AppendKeepsConsistent(prior: seq<Record>, r: Record)
    requires AllConsistent(prior)
    requires Consistent(r)
    ensures AllConsistent(prior + [r])
  {
  }

  /** After an append, loading gives back the prior rows and then the new one. */
  method AppendThenLoad(file: HistoryFile, r: Record) returns (rows: seq<Record>)
    modifies file
    ensures rows == Rows(old(file.stored)) + [r]
  {
    var written := file.Append(r);
    rows := file.Load();
  }
}
